/** elftool_parse.c: the parser as it runs, over the heap state of elftool_t. */
module Parser {
  import opened Bytes
  import opened Layout
  import opened Lists
  import opened Elftool
  import opened ParseSpec

  /** elftool_parse_ehdr. */
  method ParseEhdr(bin: Elf) returns (r: Code)
    requires bin.Valid()
    modifies bin`elfclass, bin`endian
    ensures bin.Valid()
    ensures r == if EhdrOk(bin.mem[..]) then Success else EFAULT
    ensures bin.elfclass == if MagicOk(bin.mem[..]) then bin.mem[4] else old(bin.elfclass)
    ensures bin.endian == if MagicOk(bin.mem[..]) && bin.mem[5] in {1, 2} then bin.mem[5] else old(bin.endian)
  {
    r := Success;
    var offset := 0;
    var mem := bin.mem;
    if bin.length < EHDR_LEN {
      r := EFAULT;
    } else if mem[0] != 0x7f || mem[1] != 0x45 || mem[2] != 0x4c || mem[3] != 0x46 {
      r := EFAULT;
    } else if mem[4] != 1 && mem[4] != 2 {
      r := EFAULT;
    } else {
      bin.elfclass := mem[4];
      if mem[5] != 1 && mem[5] != 2 {
        r := EFAULT;
      }
    }
    if r == Success {
      bin.endian := mem[5];
      if mem[6] > 0x12 {
        r := EFAULT;
      }
    }
    if r == Success {
      var c := bin.Cls();
      var e := EhdrAt(c, mem[..]);
      if e.phoff > bin.length {
        r := EFAULT;
      } else if e.shoff > bin.length {
        r := EFAULT;
      } else if AddW(c, TableBytes(c, e.phentsize, e.phnum), e.phoff) > bin.length {
        r := EFAULT;
      } else if AddW(c, TableBytes(c, e.shentsize, e.shnum), e.shoff) > bin.length {
        r := EFAULT;
      }
    }
  }

  /** elftool_parse_phdr_32 / _64. */
  method ParsePhdr(bin: Elf) returns (r: Code)
    requires bin.Valid() && bin.phdr.spine == []
    requires EHDR_LEN <= bin.length < bin.Cls().Modulus() / 2
    modifies bin.phdr
    ensures bin.Valid()
    ensures r == if ReadablePhdrs(bin.Cls(), bin.mem[..]) == EhdrAt(bin.Cls(), bin.mem[..]).phnum then Success
                 else Undefined
    ensures bin.phdr.Contents() == PhdrRefs(bin.Cls(), bin.mem[..], ReadablePhdrs(bin.Cls(), bin.mem[..]))
    ensures fresh(bin.phdr.spine)
  {
    hide EhdrAt, PhdrAt, ShdrAt, ContentsOf, Linked;
    var c := bin.Cls();
    var m := bin.mem[..];
    var e := EhdrAt(c, m);
    ghost var n := ReadablePhdrs(c, m);
    ghost var table := PhdrRefs(c, m, n);
    var offset := e.phoff;
    var idx := 0;
    r := Success;
    while r == Success && idx < e.phnum
      invariant bin.phdr.Valid() && fresh(bin.phdr.spine)
      invariant idx <= n && (r == Success || (r == Undefined && idx == n < e.phnum))
      invariant offset == EntryOff(e.phoff, e.phentsize, idx)
      invariant bin.phdr.Contents() == table[..idx]
      decreases r == Success, e.phnum - idx
    {
      if offset + c.PhdrSize() > bin.length {
        r := Undefined;   // the entry is read although it leaves the buffer
      } else {
        var ref := PhdrRef(idx, offset, PhdrAt(c, m, offset).offset);
        assert idx < n && table[..idx + 1] == table[..idx] + [ref];
        EntryOffStep(e.phoff, e.phentsize, idx);
        bin.phdr.Append(ref);
        offset := AddW(c, offset, e.phentsize);
        idx := idx + 1;
      }
    }
  }

  /** The loop of elftool_parse_shdr_32 / _64 that fills the list; link is symtabstrndx. */
  method FillShdrs(bin: Elf) returns (r: Code, link: int)
    requires bin.Valid() && bin.shdr.spine == []
    requires EHDR_LEN <= bin.length < bin.Cls().Modulus() / 2
    modifies bin.shdr
    ensures bin.Valid()
    ensures var c, m := bin.Cls(), bin.mem[..];
            var hs := ShdrRefs(c, m, ReadableShdrs(c, m));
            && r == (if |hs| == EhdrAt(c, m).shnum then Success
                     else if EntryOff(EhdrAt(c, m).shoff, EhdrAt(c, m).shentsize, |hs|) >= |m| then EFAULT
                     else Undefined)
            && bin.shdr.Contents() == hs
            && link == SymtabLink(c, m, hs)
    ensures fresh(bin.shdr.spine)
  {
    hide EhdrAt, PhdrAt, ShdrAt, LastSymtab, Readable, ContentsOf, Linked;
    var c := bin.Cls();
    var m := bin.mem[..];
    var e := EhdrAt(c, m);
    ghost var n := ReadableShdrs(c, m);
    ghost var table := ShdrRefs(c, m, n);
    var offset := e.shoff;
    var idx := 0;
    r, link := Success, -1;
    while r == Success && idx < e.shnum
      invariant bin.shdr.Valid() && fresh(bin.shdr.spine)
      invariant idx <= n
      invariant r != Success ==> idx == n < e.shnum && r == if offset >= |m| then EFAULT else Undefined
      invariant offset == EntryOff(e.shoff, e.shentsize, idx)
      invariant bin.shdr.Contents() == table[..idx]
      invariant link == SymtabLink(c, m, table[..idx])
      decreases r == Success, e.shnum - idx
    {
      if offset >= bin.length {
        r := EFAULT;
      } else if offset + c.ShdrSize() > bin.length {
        r := Undefined;   // the entry is read although it leaves the buffer
      } else {
        var ent := ShdrAt(c, m, offset);
        var ref := ShdrRef(idx, offset, ent.offset);
        assert idx < n && table[..idx + 1] == table[..idx] + [ref];
        EntryOffStep(e.shoff, e.shentsize, idx);
        LastSymtabSnoc(c, m, table[..idx], ref);
        bin.shdr.Append(ref);
        offset := AddW(c, offset, e.shentsize);
        idx := idx + 1;
        if ent.shtype == SHT_SYMTAB {
          link := ToInt(ent.link);
        }
      }
    }
    assert table[..n] == table;
  }

  /** The loop of elftool_parse_shdr_32 / _64 that sets shstrtab and strtab. */
  method ChooseStrtabs(bin: Elf, link: int)
    requires bin.Valid() && EHDR_LEN <= bin.length
    requires RefsIn(bin.Cls(), bin.mem[..], bin.shdr.Contents())
    requires bin.shstrtab == None && bin.strtab == None
    modifies bin`shstrtab, bin`strtab
    ensures bin.shstrtab
            == FindStrtab(bin.Cls(), bin.mem[..], bin.shdr.Contents(), EhdrAt(bin.Cls(), bin.mem[..]).shstrndx)
    ensures bin.strtab == FindStrtab(bin.Cls(), bin.mem[..], bin.shdr.Contents(), link)
  {
    hide EhdrAt, PhdrAt, ShdrAt, FindStrtab, ContentsOf, Linked;
    var c := bin.Cls();
    var m := bin.mem[..];
    var shstrndx := EhdrAt(c, m).shstrndx;
    ghost var hs := bin.shdr.Contents();
    var head := bin.shdr.head;
    ghost var i := 0;
    FindStrtabNone(c, m, shstrndx);
    FindStrtabNone(c, m, link);
    assert hs[..0] == [];
    while head != null
      invariant i <= |hs| && head == NodeAt(bin.shdr.spine, i)
      invariant bin.shstrtab == FindStrtab(c, m, hs[..i], shstrndx)
      invariant bin.strtab == FindStrtab(c, m, hs[..i], link)
      decreases |hs| - i
    {
      var ref := head.content;
      NextNode(bin.shdr, i);
      assert ref == hs[i] && hs[..i + 1] == hs[..i] + [ref];
      FindStrtabSnoc(c, m, hs[..i], ref, shstrndx);
      FindStrtabSnoc(c, m, hs[..i], ref, link);
      if ShdrAt(c, m, ref.sh_offset).shtype == SHT_STRTAB {
        if shstrndx == ref.idx {
          bin.shstrtab := Some(ref);
        }
        if link == ref.idx {
          bin.strtab := Some(ref);
        }
      }
      head := head.next;
      i := i + 1;
    }
    assert hs[..i] == hs;
  }

  /** elftool_parse_shdr_32 / _64. */
  method ParseShdr(bin: Elf) returns (r: Code)
    requires bin.Valid() && bin.shdr.spine == [] && bin.shstrtab == None && bin.strtab == None
    requires EHDR_LEN <= bin.length < bin.Cls().Modulus() / 2
    modifies bin`shstrtab, bin`strtab, bin.shdr
    ensures bin.Valid()
    ensures var p := ParseShdrs(bin.Cls(), bin.mem[..]);
            && r == p.code && bin.shdr.Contents() == p.shdrs
            && bin.shstrtab == p.shstrtab && bin.strtab == p.strtab
    ensures fresh(bin.shdr.spine)
  {
    hide EhdrAt, ShdrAt, LastSymtab, FindStrtab, SymtabLink, ReadableShdrs, ShdrRefs, ContentsOf, Linked;
    var link;
    r, link := FillShdrs(bin);
    if link < 0 {
      r := if r == Undefined then Undefined else EFAULT;
    }
    if r == Success {
      ChooseStrtabs(bin, link);
    }
  }

  /** elftool_get_sym_sections. */
  method GetSymSections(bin: Elf) returns (symtab: Option<ShdrRef>)
    requires bin.Valid() && RefsIn(bin.Cls(), bin.mem[..], bin.shdr.Contents())
    ensures symtab == LastSymtab(bin.Cls(), bin.mem[..], bin.shdr.Contents())
  {
    hide ShdrAt, LastSymtab;
    var c := bin.Cls();
    var m := bin.mem[..];
    ghost var hs := bin.shdr.Contents();
    symtab := None;
    var head := bin.shdr.head;
    ghost var i := 0;
    while head != null
      invariant i <= |hs| && head == NodeAt(bin.shdr.spine, i)
      invariant symtab == LastSymtab(c, m, hs[..i])
      decreases |hs| - i
    {
      assert hs[..i + 1] == hs[..i] + [head.content];
      LastSymtabSnoc(c, m, hs[..i], head.content);
      if ShdrAt(c, m, head.content.sh_offset).shtype == SHT_SYMTAB {
        symtab := Some(head.content);
      }
      head := head.next;
      i := i + 1;
    }
    assert hs[..i] == hs;
  }

  /** What the symbol parser reads: class, buffer, sections and string table. */
  ghost predicate Sees(bin: Elf, c: Class, m: seq<byte>, hs: seq<ShdrRef>, strtab: Option<ShdrRef>)
    reads bin, bin.mem, bin.shdr, bin.shdr.spine
  {
    && bin.length == bin.mem.Length && bin.shdr.Valid()
    && bin.Cls() == c && bin.mem[..] == m && bin.shdr.Contents() == hs && bin.strtab == strtab
    && EHDR_LEN <= |m| < c.Modulus() / 2
    && RefsIn(c, m, hs) && (strtab.Some? ==> strtab.value in hs)
  }

  /** The section lookup of the symbol loop: every list element but the last is compared. */
  method FindSection(bin: Elf, shndx: nat, prev: nat, ghost hs: seq<ShdrRef>) returns (sh: nat)
    requires bin.shdr.Valid() && bin.shdr.Contents() == hs && bin.shdr.head != null
    ensures sh == SectionOf(ButLast(hs), shndx, prev)
  {
    sh := prev;
    var head := bin.shdr.head;
    ghost var i := 0;
    while head.next != null
      invariant i < |hs| && head == bin.shdr.spine[i]
      invariant sh == SectionOf(hs[..i], shndx, prev)
      decreases |hs| - i
    {
      assert hs[..i + 1][..i] == hs[..i] && hs[..i + 1][i] == head.content;
      if head.content.idx == shndx {
        sh := head.content.sh_offset;
      }
      head := head.next;
      i := i + 1;
    }
  }

  /** One round of elftool_parse_syms32 / 64: the checks, the name and the section. */
  method SymRound(bin: Elf, symtab: ShdrRef, pos: nat, idx: nat, sh: nat,
                  ghost c: Class, ghost m: seq<byte>, ghost hs: seq<ShdrRef>, ghost strtab: Option<ShdrRef>)
    returns (r: Code, sym: SymRef)
    requires Sees(bin, c, m, hs, strtab) && symtab in hs
    requires pos < ShdrAt(c, m, symtab.sh_offset).size
    ensures SymStepAt(c, m, SymEnvOf(c, m, hs, symtab, strtab), pos, idx, sh)
            == if r == Success then Entry(sym) else Fail(r)
    ensures r != Diverges
  {
    hide ShdrAt, SymAt, CStr, SectionOf;
    var cls := bin.Cls();
    var mem := bin.mem[..];
    r, sym := Success, SymRef(0, 0, 0, 0, []);
    var offset := AddW(cls, pos, ShdrAt(cls, mem, symtab.sh_offset).offset);
    if AddW(Class64, offset, 64) > bin.length {
      r := EFAULT;
    } else if offset + cls.SymSize() > bin.length {
      r := Undefined;   // the entry is read although it leaves the buffer
    } else if bin.strtab.None? {
      r := Undefined;   // the error is noted, but the null string table is still dereferenced
    } else {
      var ent := SymAt(cls, mem, offset);
      var nameOff := AddW(cls, ent.name, ShdrAt(cls, mem, bin.strtab.value.sh_offset).offset);
      if nameOff > bin.length {
        r := EFAULT;
      } else {
        var name := CStr(mem, nameOff);
        if name.None? {
          r := Undefined;   // strdup runs off the buffer
        } else {
          var sec := FindSection(bin, ent.shndx, sh, hs);
          sym := SymRef(idx, sec, ent.value, offset, name.value);
        }
      }
    }
  }

  /** One round that pushes the symbol it built. */
  method PushSymbol(bin: Elf, symtab: ShdrRef, pos: nat, idx: nat, sh: nat, ghost got: seq<SymRef>,
                    ghost c: Class, ghost m: seq<byte>, ghost hs: seq<ShdrRef>, ghost strtab: Option<ShdrRef>)
    returns (r: Code, sym: SymRef)
    requires Sees(bin, c, m, hs, strtab) && symtab in hs
    requires pos < ShdrAt(c, m, symtab.sh_offset).size
    requires bin.syms.Valid() && bin.syms.Contents() == got
    modifies bin.syms, bin.syms.Nodes()
    ensures bin.syms.Valid() && fresh(bin.syms.Nodes() - old(bin.syms.Nodes()))
    ensures SymStepAt(c, m, SymEnvOf(c, m, hs, symtab, strtab), pos, idx, sh)
            == if r == Success then Entry(sym) else Fail(r)
    ensures bin.syms.Contents() == if r == Success then got + [sym] else got
  {
    hide SymStepAt, ShdrAt;
    r, sym := SymRound(bin, symtab, pos, idx, sh, c, m, hs, strtab);
    if r == Success {
      assert bin.syms.spine != [] ==> bin.syms.spine[|bin.syms.spine| - 1] in bin.syms.Nodes();
      bin.syms.Append(sym);
    }
  }

  /** The loop has collected got, and the rest of its outcome out is still to come. */
  ghost predicate LoopAt(c: Class, m: seq<byte>, env: SymEnv, pos: nat, idx: nat, sh: nat,
                         got: seq<SymRef>, out: SymList)
  {
    && EnvOk(c, env) && pos < c.Modulus() && |m| < c.Modulus() / 2
    && var rest := SymLoop(c, m, env, pos, idx, sh);
       out == SymList(rest.code, got + rest.syms)
  }

  lemma LoopStart(c: Class, m: seq<byte>, env: SymEnv)
    requires EnvOk(c, env) && |m| < c.Modulus() / 2
    ensures LoopAt(c, m, env, 0, 0, 0, [], SymLoop(c, m, env, 0, 0, 0))
  {
    hide SymLoop;
    var out := SymLoop(c, m, env, 0, 0, 0);
    assert [] + out.syms == out.syms;
  }

  lemma SeesFacts(bin: Elf, c: Class, m: seq<byte>, hs: seq<ShdrRef>, strtab: Option<ShdrRef>, symtab: ShdrRef)
    requires Sees(bin, c, m, hs, strtab) && symtab in hs
    ensures bin.Cls() == c && bin.mem[..] == m && |m| < c.Modulus() / 2
    ensures symtab.sh_offset + c.ShdrSize() <= |m|
    ensures strtab.Some? ==> strtab.value.sh_offset + c.ShdrSize() <= |m|
    ensures SymEnvOf(c, m, hs, symtab, strtab).tab == ShdrAt(c, m, symtab.sh_offset)
  {
    hide ShdrAt;
  }

  /** How the loop's outcome unfolds over one round. */
  lemma RoundUnfolds(c: Class, m: seq<byte>, env: SymEnv, pos: nat, idx: nat, sh: nat, got: seq<SymRef>, out: SymList)
    requires LoopAt(c, m, env, pos, idx, sh, got, out)
    ensures EnvOk(c, env) && pos < c.Modulus() && |m| < c.Modulus() / 2
    ensures match SymStepAt(c, m, env, pos, idx, sh)
            case End => out == SymList(Success, got)
            case Fail(code) => out == SymList(code, got)
            case Entry(e) =>
              if env.tab.entsize == 0 then out.code == Diverges
              else
                var next := AddW(c, pos, env.tab.entsize);
                && LoopAt(c, m, env, next, (idx + 1) % 0x1_0000, e.sh_offset, got + [e], out)
                && SymMeasure(c, |m|, AddW(c, next, env.tab.offset), env.tab.entsize)
                   < SymMeasure(c, |m|, AddW(c, pos, env.tab.offset), env.tab.entsize)
  {
    hide SymStepAt, AddW, SymMeasure;
    if SymStepAt(c, m, env, pos, idx, sh).Entry? && env.tab.entsize != 0 {
      var e := SymStepAt(c, m, env, pos, idx, sh).sym;
      SymMeasureDecreases(c, |m|, env.tab.offset, env.tab.entsize, pos);
      var rest := SymLoop(c, m, env, AddW(c, pos, env.tab.entsize), (idx + 1) % 0x1_0000, e.sh_offset);
      assert got + ([e] + rest.syms) == got + [e] + rest.syms;
    }
  }

  /** The body of the symbol loop. */
  method NextSymbol(bin: Elf, symtab: ShdrRef, entsize: nat, pos: nat, idx: nat, sh: nat,
                    ghost c: Class, ghost m: seq<byte>, ghost hs: seq<ShdrRef>, ghost strtab: Option<ShdrRef>,
                    ghost env: SymEnv, ghost got: seq<SymRef>, ghost out: SymList)
    returns (r: Code, pos': nat, idx': nat, sh': nat, ghost got': seq<SymRef>)
    requires Sees(bin, c, m, hs, strtab) && symtab in hs && env == SymEnvOf(c, m, hs, symtab, strtab)
    requires LoopAt(c, m, env, pos, idx, sh, got, out) && pos < env.tab.size && entsize == env.tab.entsize
    requires bin.syms.Valid() && bin.syms.Contents() == got
    modifies bin.syms, bin.syms.Nodes()
    ensures bin.syms.Valid() && fresh(bin.syms.Nodes() - old(bin.syms.Nodes())) && bin.syms.Contents() == got'
    ensures r == Success ==>
              && LoopAt(c, m, env, pos', idx', sh', got', out)
              && SymMeasure(c, |m|, AddW(c, pos', env.tab.offset), env.tab.entsize)
                 < SymMeasure(c, |m|, AddW(c, pos, env.tab.offset), env.tab.entsize)
    ensures r != Success ==> out.code == r && (r !in {Undefined, Diverges} ==> out.syms == got')
  {
    hide LoopAt, Sees, ContentsOf, Linked, ShdrAt, SymStepAt, SymMeasure, SymLoop, AddW, SymEnvOf;
    SeesFacts(bin, c, m, hs, strtab, symtab);
    var cls := bin.Cls();
    RoundUnfolds(c, m, env, pos, idx, sh, got, out);
    var sym;
    r, sym := PushSymbol(bin, symtab, pos, idx, sh, got, c, m, hs, strtab);
    pos', idx', sh', got' := pos, idx, sh, got;
    if r == Success {
      got' := got + [sym];
      sh' := sym.sh_offset;
      if entsize == 0 {
        r := Diverges;
      } else {
        pos' := AddW(cls, pos, entsize);
        idx' := (idx + 1) % 0x1_0000;
      }
    }
  }

  /** elftool_parse_syms32 / 64 on the chosen symbol table. */
  method ParseSymtab(bin: Elf, symtab: ShdrRef,
                     ghost c: Class, ghost m: seq<byte>, ghost hs: seq<ShdrRef>, ghost strtab: Option<ShdrRef>)
    returns (r: Code)
    requires Sees(bin, c, m, hs, strtab) && symtab in hs
    requires bin.syms.Valid() && bin.syms.spine == []
    modifies bin.syms
    ensures bin.syms.Valid() && fresh(bin.syms.Nodes())
    ensures var out := SymLoop(c, m, SymEnvOf(c, m, hs, symtab, strtab), 0, 0, 0);
            && r == out.code
            && (r !in {Undefined, Diverges} ==> bin.syms.Contents() == out.syms)
  {
    hide LoopAt, Sees, RefsIn, ContentsOf, Linked, ShdrAt, SymStepAt, SymMeasure, SymLoop, SymEnvOf;
    SeesFacts(bin, c, m, hs, strtab, symtab);
    var tab := ShdrAt(bin.Cls(), bin.mem[..], symtab.sh_offset);
    ghost var env := SymEnvOf(c, m, hs, symtab, strtab);
    ghost var out := SymLoop(c, m, env, 0, 0, 0);
    ghost var got: seq<SymRef> := [];
    LoopStart(c, m, env);
    var pos: nat, idx: nat, sh: nat := 0, 0, 0;
    r := Success;
    ghost var measure := SymMeasure(c, |m|, AddW(c, 0, env.tab.offset), env.tab.entsize);
    while r == Success && pos < tab.size
      invariant Sees(bin, c, m, hs, strtab)
      invariant bin.syms.Valid() && fresh(bin.syms.Nodes()) && bin.syms.Contents() == got
      invariant r == Success ==> LoopAt(c, m, env, pos, idx, sh, got, out)
      invariant r == Success ==> pos < c.Modulus()
      invariant r == Success ==> measure == SymMeasure(c, |m|, AddW(c, pos, env.tab.offset), env.tab.entsize)
      invariant r != Success ==> out.code == r && (r !in {Undefined, Diverges} ==> out.syms == got)
      decreases r == Success, measure
    {
      r, pos, idx, sh, got := NextSymbol(bin, symtab, tab.entsize, pos, idx, sh, c, m, hs, strtab, env, got, out);
      if r == Success {
        RoundUnfolds(c, m, env, pos, idx, sh, got, out);
        measure := SymMeasure(c, |m|, AddW(c, pos, env.tab.offset), env.tab.entsize);
      }
    }
    if r == Success {
      RoundUnfolds(c, m, env, pos, idx, sh, got, out);
    }
  }

  /** elftool_parse_syms. */
  method ParseSymbols(bin: Elf) returns (r: Code)
    requires bin.Valid() && bin.syms.spine == []
    requires EHDR_LEN <= bin.length < bin.Cls().Modulus() / 2
    requires RefsIn(bin.Cls(), bin.mem[..], bin.shdr.Contents())
    requires bin.strtab.Some? ==> bin.strtab.value in bin.shdr.Contents()
    modifies bin.syms
    ensures bin.Valid()
    ensures var out := ParseSyms(bin.Cls(), bin.mem[..], bin.shdr.Contents(), bin.strtab);
            && r == out.code
            && (r !in {Undefined, Diverges} ==> bin.syms.Contents() == out.syms)
    ensures fresh(bin.syms.Nodes())
  {
    hide LastSymtab, SymLoop, ShdrAt;
    var symtab := GetSymSections(bin);
    if symtab.None? {
      r := EINVAL;
    } else {
      r := ParseSymtab(bin, symtab.value, bin.Cls(), bin.mem[..], bin.shdr.Contents(), bin.strtab);
    }
  }

  /** elftool_parse on a freshly loaded binary. */
  method ParseElf(bin: Elf) returns (r: Code)
    requires bin.Valid() && SmallBuffer(bin.mem[..])
    requires bin.phdr.spine == [] && bin.shdr.spine == [] && bin.syms.spine == []
    requires bin.shstrtab == None && bin.strtab == None
    modifies bin`elfclass, bin`endian, bin`shstrtab, bin`strtab, bin.phdr, bin.shdr, bin.syms
    ensures bin.Valid()
    ensures bin.mem == old(bin.mem) && bin.mem[..] == old(bin.mem[..])
    ensures r == Parse(bin.mem[..]).code
    ensures r !in {Undefined, Diverges} ==> Fields(bin, r) == Parse(bin.mem[..])
    ensures r == Success ==> bin.Cls() == ClassOf(bin.mem[..])
  {
    hide EhdrAt, EhdrOk, ReadablePhdrs, PhdrRefs, ParseShdrs, ParseSyms, ShdrAt, RefsIn, ContentsOf, Linked, MagicOk;
    ghost var m := bin.mem[..];
    r := ParseEhdr(bin);
    if r == Success {
      EhdrOkFacts(m);
      r := ParsePhdr(bin);
    }
    if r == Success {
      r := ParseShdr(bin);
    }
    if r == Success {
      r := ParseSymbols(bin);
    }
  }

  /** The parse result held in an elftool_t. */
  ghost function Fields(bin: Elf, r: Code): Parsed
    reads bin, bin.phdr, bin.phdr.spine, bin.shdr, bin.shdr.spine, bin.syms, bin.syms.spine
  {
    Parsed(r, bin.phdr.Contents(), bin.shdr.Contents(), bin.shstrtab, bin.strtab, bin.syms.Contents())
  }
}
