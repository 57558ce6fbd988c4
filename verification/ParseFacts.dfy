/** What a successful parse means. */
module ParseFacts {
  import opened Bytes
  import opened Layout
  import opened ParseSpec

  // ----- header validation -----

  /** For entries of at most 64 bytes the size check says exactly that the table ends inside the buffer. */
  lemma TableInside(c: Class, ent: nat, num: nat, off: nat, len: nat)
    requires ent <= 64 && num < 0x1_0000 && off <= len < c.Modulus() / 2
    ensures AddW(c, TableBytes(c, ent, num), off) <= len <==> EntryOff(off, ent, num) <= len
  {
    ProductBound(ent, num, 0xffff);
    SmallProduct(ent, num);
  }

  lemma {:induction false} SmallProduct(ent: nat, num: nat)
    requires ent <= 64
    ensures Product(ent, num) <= 64 * num
  {
    if num != 0 {
      SmallProduct(ent, num - 1);
      assert Product(ent, num) == Product(ent, num - 1) + ent;
    }
  }

  /** Every entry of a table that ends inside the buffer is readable. */
  lemma TableReadable(len: nat, base: nat, ent: nat, num: nat)
    requires EntryOff(base, ent, num) <= len
    ensures Readable(len, base, ent, ent, num) == num
  {
    forall k | 0 <= k < num ensures EntryOff(base, ent, k) + ent <= len {
      EntryOffMono(base, ent, k, num);
    }
    AllReadable(len, base, ent, ent, num);
  }

  /**
   * Once the header check passes with full-size entries, neither table loop reaches
   * its own out-of-scope branch: every entry is read, and it lies in the buffer.
   */
  lemma HeaderValidationSufficient(m: seq<byte>)
    requires EhdrOk(m) && SmallBuffer(m)
    requires var e := EhdrAt(ClassOf(m), m);
             e.phentsize == ClassOf(m).PhdrSize() && e.shentsize == ClassOf(m).ShdrSize()
    ensures var c := ClassOf(m); var e := EhdrAt(c, m); var p := Parse(m);
            && |p.phdrs| == e.phnum && |p.shdrs| == e.shnum
            && (forall k :: 0 <= k < e.phnum ==> p.phdrs[k] == PhdrRefAt(c, m, k))
            && (forall k :: 0 <= k < e.shnum ==> p.shdrs[k] == ShdrRefAt(c, m, k))
            && ParseShdrs(c, m).code == (if SymtabLink(c, m, p.shdrs) < 0 then EFAULT else Success)
  {
    hide EhdrAt, ShdrAt, PhdrAt, Readable;
    EhdrOkFacts(m);
    var c := ClassOf(m);
    var e := EhdrAt(c, m);
    TableInside(c, e.phentsize, e.phnum, e.phoff, |m|);
    TableInside(c, e.shentsize, e.shnum, e.shoff, |m|);
    TableReadable(|m|, e.phoff, e.phentsize, e.phnum);
    TableReadable(|m|, e.shoff, e.shentsize, e.shnum);
  }

  /** With full-size entries a header is accepted exactly for these bytes and tables that end in the buffer. */
  lemma HeaderAccepted(m: seq<byte>)
    requires 64 <= |m| && SmallBuffer(m)
    requires var c := ClassOf(m); EhdrAt(c, m).phentsize == c.PhdrSize() && EhdrAt(c, m).shentsize == c.ShdrSize()
    ensures ClassOf(m) == if m[4] == 1 then Class32 else Class64
    ensures var e := EhdrAt(ClassOf(m), m);
            EhdrOk(m)
            <==> && m[..4] == [0x7f, 0x45, 0x4c, 0x46]
                 && m[4] in {1, 2} && m[5] in {1, 2} && m[6] <= 18
                 && e.phoff + e.phnum * e.phentsize <= |m|
                 && e.shoff + e.shnum * e.shentsize <= |m|
  {
    hide EhdrAt, TableBytes;
    var c := ClassOf(m);
    var e := EhdrAt(c, m);
    assert m[..4] == [m[0], m[1], m[2], m[3]];
    if e.phoff <= |m| && |m| < c.Modulus() / 2 {
      TableInside(c, e.phentsize, e.phnum, e.phoff, |m|);
    }
    if e.shoff <= |m| && |m| < c.Modulus() / 2 {
      TableInside(c, e.shentsize, e.shnum, e.shoff, |m|);
    }
  }

  // ----- the two independent symbol-table scans -----

  /** Section k is the last SHT_SYMTAB of the list. */
  ghost predicate IsLastSymtab(c: Class, m: seq<byte>, hs: seq<ShdrRef>, k: nat)
    requires RefsIn(c, m, hs)
  {
    && k < |hs|
    && ShdrAt(c, m, hs[k].sh_offset).shtype == SHT_SYMTAB
    && forall j :: k < j < |hs| ==> ShdrAt(c, m, hs[j].sh_offset).shtype != SHT_SYMTAB
  }

  lemma {:induction false} LastSymtabMeaning(c: Class, m: seq<byte>, hs: seq<ShdrRef>) returns (k: nat)
    requires RefsIn(c, m, hs) && LastSymtab(c, m, hs).Some?
    ensures IsLastSymtab(c, m, hs, k) && LastSymtab(c, m, hs) == Some(hs[k])
  {
    hide ShdrAt;
    var n := |hs| - 1;
    if ShdrAt(c, m, hs[n].sh_offset).shtype == SHT_SYMTAB {
      k := n;
    } else {
      k := LastSymtabMeaning(c, m, hs[..n]);
    }
  }

  /**
   * The string table the section parser picks is the sh_link target of the very
   * section whose entries the symbol parser lists.
   */
  lemma SymtabAndStrtabAgree(m: seq<byte>) returns (k: nat)
    requires SmallBuffer(m) && Parse(m).code == Success
    ensures var c := ClassOf(m); var p := Parse(m);
            && EHDR_LEN <= |m| && RefsIn(c, m, p.shdrs) && IsLastSymtab(c, m, p.shdrs, k)
            && (p.syms != [] ==> p.strtab.Some?)
            && (p.strtab.Some? ==>
                  && var link := ShdrAt(c, m, p.shdrs[k].sh_offset).link;
                  && link < |p.shdrs| && p.strtab.value == p.shdrs[link]
                  && ShdrAt(c, m, p.shdrs[link].sh_offset).shtype == SHT_STRTAB)
  {
    hide EhdrAt, ShdrAt, PhdrAt, Readable, SymLoop, LastSymtab, FindStrtab, SymAt, StringAt, SectionOf;
    hide PhdrRefs, TablesFit;
    EhdrOkFacts(m);
    var c, p := ClassOf(m), Parse(m);
    k := LastSymtabMeaning(c, m, p.shdrs);
    assert forall j :: 0 <= j < |p.shdrs| ==> p.shdrs[j] == ShdrRefAt(c, m, j);
    if p.syms != [] {
      var env := SymEnvOf(c, m, p.shdrs, p.shdrs[k], p.strtab);
      SymbolTableMeaning(c, m, env);
      assert ListMeans(c, m, env, p.syms, env.tab.offset, 0, 0);
      assert MeansAt(c, m, env, p.syms, env.tab.offset, 0, 0, 0);
    }
  }

  /** Among parsed sections the lookup of a string table is by position and type. */
  lemma {:induction false} StrtabByIndex(c: Class, m: seq<byte>, n: nat, j: nat, x: int)
    requires ShdrsIn(c, m, n) && j <= n && RefsIn(c, m, ShdrRefs(c, m, n)[..j])
    ensures FindStrtab(c, m, ShdrRefs(c, m, n)[..j], x)
            == if 0 <= x < j && ShdrAt(c, m, ShdrRefAt(c, m, x).sh_offset).shtype == 3 then Some(ShdrRefAt(c, m, x))
               else None
  {
    hide EhdrAt, ShdrAt;
    var hs := ShdrRefs(c, m, n);
    if j > 0 {
      assert hs[..j][..j - 1] == hs[..j - 1] && hs[..j][j - 1] == ShdrRefAt(c, m, j - 1);
      assert RefsIn(c, m, hs[..j - 1]);
      StrtabByIndex(c, m, n, j - 1, x);
    }
  }

  /**
   * The two string tables of a successful parse: the sections at e_shstrndx and at the
   * sh_link of the symbol table, each only if it exists and has type SHT_STRTAB, 3.
   */
  lemma StringTables(m: seq<byte>) returns (k: nat)
    requires SmallBuffer(m) && Parse(m).code == Success
    ensures EHDR_LEN <= |m| && RefsIn(ClassOf(m), m, Parse(m).shdrs)
    ensures IsLastSymtab(ClassOf(m), m, Parse(m).shdrs, k)
    ensures var c, hs := ClassOf(m), Parse(m).shdrs;
            && Parse(m).shstrtab == SectionOfType3(c, m, hs, EhdrAt(c, m).shstrndx)
            && Parse(m).strtab == SectionOfType3(c, m, hs, ShdrAt(c, m, hs[k].sh_offset).link)
  {
    hide EhdrAt, ShdrAt, PhdrAt, Readable, SymLoop, LastSymtab, FindStrtab, PhdrRefs, TablesFit;
    EhdrOkFacts(m);
    var c, p := ClassOf(m), Parse(m);
    k := LastSymtabMeaning(c, m, p.shdrs);
    var n := EhdrAt(c, m).shnum;
    assert p.shdrs == ShdrRefs(c, m, n) && p.shdrs[..n] == p.shdrs;
    assert forall j :: 0 <= j < n ==> p.shdrs[j] == ShdrRefAt(c, m, j);
    StrtabByIndex(c, m, n, n, EhdrAt(c, m).shstrndx);
    StrtabByIndex(c, m, n, n, SymtabLink(c, m, p.shdrs));
  }

  /** The section at position x, if there is one and its sh_type is 3. */
  ghost function SectionOfType3(c: Class, m: seq<byte>, hs: seq<ShdrRef>, x: nat): Option<ShdrRef>
    requires RefsIn(c, m, hs)
  {
    if x < |hs| && ShdrAt(c, m, hs[x].sh_offset).shtype == 3 then Some(hs[x]) else None
  }

  // ----- failures in front of the symbols -----

  lemma HeaderRejected(m: seq<byte>)
    requires SmallBuffer(m) && !EhdrOk(m)
    ensures Parse(m) == Parsed(EFAULT, [], [], None, None, [])
  {
  }

  /** Entry n of a table of num entries of size bytes is the first that the end of the buffer cuts off. */
  ghost predicate CutOffAt(len: nat, base: nat, ent: nat, size: nat, num: nat, n: nat)
  {
    && n < num && EntryOff(base, ent, n) + size > len
    && forall k :: 0 <= k < n ==> EntryOff(base, ent, k) + size <= len
  }

  lemma ReadableToCut(len: nat, base: nat, ent: nat, size: nat, num: nat, n: nat)
    requires CutOffAt(len, base, ent, size, num, n)
    ensures Readable(len, base, ent, size, num) == n
  {
    hide EntryOff;
  }

  /** A program header table that is cut off: the entries in front are listed, the rest is undefined. */
  lemma SegmentsCutOff(m: seq<byte>, n: nat)
    requires SmallBuffer(m) && EhdrOk(m)
    requires var c := ClassOf(m); var e := EhdrAt(c, m);
             CutOffAt(|m|, e.phoff, e.phentsize, c.PhdrSize(), e.phnum, n)
    ensures PhdrsIn(ClassOf(m), m, n)
    ensures Parse(m) == Parsed(Undefined, PhdrRefs(ClassOf(m), m, n), [], None, None, [])
  {
    hide EhdrAt, PhdrAt, ShdrAt, EntryOff, Readable, CutOffAt, TablesFit;
    EhdrOkFacts(m);
    var c := ClassOf(m);
    var e := EhdrAt(c, m);
    ReadableToCut(|m|, e.phoff, e.phentsize, c.PhdrSize(), e.phnum, n);
    CutOffInside(|m|, e.phnum, n, e.phoff, e.phentsize, c.PhdrSize());
  }

  lemma CutOffInside(len: nat, num: nat, n: nat, base: nat, ent: nat, size: nat)
    requires CutOffAt(len, base, ent, size, num, n)
    ensures n < num && EntryOff(base, ent, n) + size > len
  {
  }

  /**
   * A section header table that is cut off: an error when its next entry begins behind the
   * buffer, undefined when the entry only ends there; the entries in front are listed.
   */
  lemma SectionsCutOff(c: Class, m: seq<byte>, n: nat)
    requires EHDR_LEN <= |m|
    requires var e := EhdrAt(c, m); CutOffAt(|m|, e.shoff, e.shentsize, c.ShdrSize(), e.shnum, n)
    ensures ShdrsIn(c, m, n)
    ensures var off := EntryOff(EhdrAt(c, m).shoff, EhdrAt(c, m).shentsize, n);
            ParseShdrs(c, m)
            == Parsed(if off >= |m| then EFAULT else Undefined, [], ShdrRefs(c, m, n), None, None, [])
  {
    hide EhdrAt, ShdrAt, EntryOff, Readable, CutOffAt;
    var e := EhdrAt(c, m);
    ReadableToCut(|m|, e.shoff, e.shentsize, c.ShdrSize(), e.shnum, n);
    CutOffInside(|m|, e.shnum, n, e.shoff, e.shentsize, c.ShdrSize());
  }

  /** Without a symbol table, or when the last one links to 2^31 or more, the sections are an error. */
  lemma NoUsableSymtab(c: Class, m: seq<byte>)
    requires EHDR_LEN <= |m| && ShdrsIn(c, m, EhdrAt(c, m).shnum)
    requires var hs := ShdrRefs(c, m, EhdrAt(c, m).shnum);
             && RefsIn(c, m, hs)
             && forall k: nat :: IsLastSymtab(c, m, hs, k) ==> ShdrAt(c, m, hs[k].sh_offset).link >= 0x8000_0000
    ensures ParseShdrs(c, m) == Parsed(EFAULT, [], ShdrRefs(c, m, EhdrAt(c, m).shnum), None, None, [])
  {
    hide EhdrAt, ShdrAt, EntryOff, Readable, FindStrtab, LastSymtab;
    var e := EhdrAt(c, m);
    AllReadable(|m|, e.shoff, e.shentsize, c.ShdrSize(), e.shnum);
    var hs := ShdrRefs(c, m, e.shnum);
    if LastSymtab(c, m, hs).Some? {
      var k := LastSymtabMeaning(c, m, hs);
    }
  }

  // ----- symbols -----

  /** Entry e of the symbol list stands for the symbol at off. */
  ghost predicate EntryMeans(c: Class, m: seq<byte>, env: SymEnv, e: SymRef, off: nat, idx: nat, prev: nat)
    requires EnvOk(c, env)
  {
    && off + c.SymSize() <= |m|
    && env.strOff.Some?
    && var y := SymAt(c, m, off);
    && e.idx == idx
    && e.sym_offset == off
    && e.mem_offset == y.value
    && StringAt(m, AddW(c, y.name, env.strOff.value), e.name)
    && e.sh_offset == SectionOf(ButLast(env.hs), y.shndx, prev)
  }

  /** Element k of the list stands for the k-th symbol from file offset off on. */
  ghost predicate MeansAt(c: Class, m: seq<byte>, env: SymEnv, syms: seq<SymRef>, off: nat, idx: nat, sh: nat, k: nat)
    requires EnvOk(c, env)
  {
    && k < |syms|
    && EntryMeans(c, m, env, syms[k], EntryOff(off, env.tab.entsize, k), (idx + k) % 0x1_0000,
                  if k == 0 then sh else syms[k - 1].sh_offset)
  }

  /** The list stands for consecutive symbols from file offset off on. */
  ghost predicate ListMeans(c: Class, m: seq<byte>, env: SymEnv, syms: seq<SymRef>, off: nat, idx: nat, sh: nat)
    requires EnvOk(c, env)
  {
    forall k :: 0 <= k < |syms| ==> MeansAt(c, m, env, syms, off, idx, sh, k)
  }

  lemma StepMeans(c: Class, m: seq<byte>, env: SymEnv, pos: nat, idx: nat, sh: nat)
    requires EnvOk(c, env) && pos < c.Modulus() && |m| < c.Modulus() / 2
    requires pos + env.tab.offset < c.Modulus()
    requires SymStepAt(c, m, env, pos, idx, sh).Entry?
    ensures EntryMeans(c, m, env, SymStepAt(c, m, env, pos, idx, sh).sym, env.tab.offset + pos, idx, sh)
  {
    hide SymAt, CStr, SectionOf;
    var off := env.tab.offset + pos;
    var nameOff := AddW(c, SymAt(c, m, off).name, env.strOff.value);
    CStrMeaning(m, nameOff, SymStepAt(c, m, env, pos, idx, sh).sym.name);
  }

  /** An entry size of at least half the address space leads the loop out of the buffer. */
  lemma {:induction false} NoWayBack(c: Class, m: seq<byte>, env: SymEnv, pos: nat, idx: nat, sh: nat)
    requires EnvOk(c, env) && |m| < c.Modulus() / 2
    requires env.tab.offset < c.Modulus() / 2 <= env.tab.entsize
    requires c.Modulus() / 2 <= pos < env.tab.size
    ensures SymLoop(c, m, env, pos, idx, sh).code != Success
    decreases SymMeasure(c, |m|, AddW(c, pos, env.tab.offset), env.tab.entsize)
  {
    hide SymAt, CStr, SectionOf;
    var step := SymStepAt(c, m, env, pos, idx, sh);
    if step.Entry? {
      SymMeasureDecreases(c, |m|, env.tab.offset, env.tab.entsize, pos);
      var next := AddW(c, pos, env.tab.entsize);
      if c.Modulus() / 2 <= next {
        NoWayBack(c, m, env, next, (idx + 1) % 0x1_0000, step.sym.sh_offset);
      }
    }
  }

  lemma EntryOffShift(base: nat, ent: nat, k: nat)
    requires 0 < k
    ensures EntryOff(base + ent, ent, k - 1) == EntryOff(base, ent, k)
  {
    EntryOffStep(base, ent, k - 1);
  }

  lemma ListMeansCons(c: Class, m: seq<byte>, env: SymEnv, e: SymRef, rest: seq<SymRef>, off: nat, idx: nat, sh: nat)
    requires EnvOk(c, env)
    requires idx < 0x1_0000 && EntryMeans(c, m, env, e, off, idx, sh)
    requires ListMeans(c, m, env, rest, off + env.tab.entsize, (idx + 1) % 0x1_0000, e.sh_offset)
    ensures ListMeans(c, m, env, [e] + rest, off, idx, sh)
  {
    hide EntryMeans;
    var syms := [e] + rest;
    forall k | 0 <= k < |syms|
      ensures MeansAt(c, m, env, syms, off, idx, sh, k)
    {
      if k == 0 {
        assert EntryOff(off, env.tab.entsize, 0) == off;
      } else {
        EntryOffShift(off, env.tab.entsize, k);
        assert syms[k] == rest[k - 1] && (k > 1 ==> syms[k - 1] == rest[k - 2]);
        assert ((idx + 1) % 0x1_0000 + (k - 1)) % 0x1_0000 == (idx + k) % 0x1_0000;
        assert MeansAt(c, m, env, rest, off + env.tab.entsize, (idx + 1) % 0x1_0000, e.sh_offset, k - 1);
      }
    }
  }

  /** n is ceil((size - pos) / ent). */
  ghost predicate CountIs(n: nat, pos: nat, ent: nat, size: nat)
  {
    if n == 0 then pos >= size
    else EntryOff(pos, ent, n - 1) < size <= EntryOff(pos, ent, n)
  }

  lemma {:induction false} Ascending(c: Class, m: seq<byte>, env: SymEnv, pos: nat, idx: nat, sh: nat)
    requires EnvOk(c, env) && |m| < c.Modulus() / 2
    requires env.tab.entsize < c.Modulus() / 2 && pos + env.tab.offset < c.Modulus() && idx < 0x1_0000
    requires SymLoop(c, m, env, pos, idx, sh).code == Success
    ensures var syms := SymLoop(c, m, env, pos, idx, sh).syms;
            && ListMeans(c, m, env, syms, env.tab.offset + pos, idx, sh)
            && CountIs(|syms|, pos, env.tab.entsize, env.tab.size)
    decreases SymMeasure(c, |m|, AddW(c, pos, env.tab.offset), env.tab.entsize)
  {
    hide EntryMeans, SymStepAt, ListMeans, EntryOff, CountIs;
    var step := SymStepAt(c, m, env, pos, idx, sh);
    var ent := env.tab.entsize;
    if step.Entry? {
      var e := step.sym;
      StepMeans(c, m, env, pos, idx, sh);
      SymMeasureDecreases(c, |m|, env.tab.offset, ent, pos);
      Ascending(c, m, env, pos + ent, (idx + 1) % 0x1_0000, e.sh_offset);
      var rest := SymLoop(c, m, env, pos + ent, (idx + 1) % 0x1_0000, e.sh_offset).syms;
      ListMeansCons(c, m, env, e, rest, env.tab.offset + pos, idx, sh);
      CountCons(|rest|, pos, ent, env.tab.size);
    } else {
      NoEntries(c, m, env, pos, idx, sh);
    }
  }

  lemma NoEntries(c: Class, m: seq<byte>, env: SymEnv, pos: nat, idx: nat, sh: nat)
    requires EnvOk(c, env)
    ensures ListMeans(c, m, env, [], env.tab.offset + pos, idx, sh)
    ensures pos >= env.tab.size ==> CountIs(0, pos, env.tab.entsize, env.tab.size)
  {
  }

  lemma CountCons(n: nat, pos: nat, ent: nat, size: nat)
    requires pos < size && CountIs(n, pos + ent, ent, size)
    ensures CountIs(n + 1, pos, ent, size)
  {
    EntryOffShift(pos, ent, n + 1);
    if n > 0 {
      EntryOffShift(pos, ent, n);
    } else {
      assert EntryOff(pos, ent, 0) == pos && EntryOff(pos + ent, ent, 0) == pos + ent;
    }
  }

  /**
   * A symbol table that parses is read from front to back: ceil(size / entsize)
   * entries, entry k at offset + k * entsize with the string its st_name points at,
   * even when entsize is so large that the position counter wraps.
   */
  lemma SymbolTableMeaning(c: Class, m: seq<byte>, env: SymEnv)
    requires EnvOk(c, env) && |m| < c.Modulus() / 2
    requires SymLoop(c, m, env, 0, 0, 0).code == Success
    ensures var syms := SymLoop(c, m, env, 0, 0, 0).syms;
            && ListMeans(c, m, env, syms, env.tab.offset, 0, 0)
            && CountIs(|syms|, 0, env.tab.entsize, env.tab.size)
  {
    hide EntryMeans, SymStepAt;
    var ent := env.tab.entsize;
    if ent < c.Modulus() / 2 {
      Ascending(c, m, env, 0, 0, 0);
    } else if env.tab.size > 0 {
      var step := SymStepAt(c, m, env, 0, 0, 0);
      StepMeans(c, m, env, 0, 0, 0);
      if ent < env.tab.size {
        NoWayBack(c, m, env, ent, 1, step.sym.sh_offset);
      }
      assert SymLoop(c, m, env, 0, 0, 0).syms == [step.sym];
      ListMeansCons(c, m, env, step.sym, [], env.tab.offset, 0, 0);
    }
  }

  // ----- when the symbol loop succeeds -----

  /**
   * Symbol k passes the checks of its round: 64 bytes, the size of a section header,
   * follow its offset, there is a string table, and its name starts and ends in the buffer.
   */
  predicate Listable(c: Class, m: seq<byte>, env: SymEnv, k: nat)
    requires EnvOk(c, env)
  {
    var off := EntryOff(env.tab.offset, env.tab.entsize, k);
    && off + 64 <= |m|
    && env.strOff.Some?
    && var o := AddW(c, SymAt(c, m, off).name, env.strOff.value);
    && o <= |m| && CStr(m, o).Some?
  }

  /** How the loop ends at a symbol that fails: the library's error, or an access outside its data. */
  function FailureOf(c: Class, m: seq<byte>, env: SymEnv, k: nat): Code
    requires EnvOk(c, env)
  {
    var off := EntryOff(env.tab.offset, env.tab.entsize, k);
    if off + 64 > |m| then (if off < TWO64 && AddW(Class64, off, 64) <= |m| then Undefined else EFAULT)
    else if env.strOff.None? then Undefined
    else if AddW(c, SymAt(c, m, off).name, env.strOff.value) > |m| then EFAULT
    else Undefined
  }

  lemma StepOutcome(c: Class, m: seq<byte>, env: SymEnv, pos: nat, idx: nat, sh: nat, k: nat)
    requires EnvOk(c, env) && |m| < c.Modulus() / 2
    requires pos == EntryOff(0, env.tab.entsize, k) < env.tab.size && pos + env.tab.offset < c.Modulus()
    ensures var step := SymStepAt(c, m, env, pos, idx, sh);
            if Listable(c, m, env, k) then
              && step.Entry? && pos + env.tab.offset + 64 <= |m|
              && step.sym.idx == idx && step.sym.sym_offset == pos + env.tab.offset
              && var y := SymAt(c, m, pos + env.tab.offset);
              && step.sym.mem_offset == y.value
              && CStr(m, AddW(c, y.name, env.strOff.value)) == Some(step.sym.name)
              && step.sym.sh_offset == SectionOf(ButLast(env.hs), y.shndx, sh)
            else step == Fail(FailureOf(c, m, env, k))
  {
    hide SymAt, CStr, SectionOf, EntryOff;
    var off := pos + env.tab.offset;
    EntryOffAt(env.tab.offset, env.tab.entsize, k);
    assert AddW(c, pos, env.tab.offset) == off;
  }

  lemma EntryOffAt(base: nat, ent: nat, k: nat)
    ensures EntryOff(base, ent, k) == base + EntryOff(0, ent, k)
  {
  }

  lemma {:induction false} LoopSucceedsFrom(c: Class, m: seq<byte>, env: SymEnv, pos: nat, idx: nat, sh: nat, k: nat)
    requires EnvOk(c, env) && |m| < c.Modulus() / 2 && 0 < env.tab.entsize < c.Modulus() / 2
    requires pos == EntryOff(0, env.tab.entsize, k) && pos + env.tab.offset < c.Modulus()
    ensures SymLoop(c, m, env, pos, idx, sh).code == Success
            <==> forall j: nat :: k <= j && EntryOff(0, env.tab.entsize, j) < env.tab.size ==> Listable(c, m, env, j)
    decreases SymMeasure(c, |m|, AddW(c, pos, env.tab.offset), env.tab.entsize)
  {
    hide SymStepAt, Listable, EntryOff, FailureOf;
    var ent := env.tab.entsize;
    var step := SymStepAt(c, m, env, pos, idx, sh);
    if pos < env.tab.size {
      StepOutcome(c, m, env, pos, idx, sh, k);
      if step.Entry? {
        SymMeasureDecreases(c, |m|, env.tab.offset, ent, pos);
        EntryOffStep(0, ent, k);
        LoopSucceedsFrom(c, m, env, pos + ent, (idx + 1) % 0x1_0000, step.sym.sh_offset, k + 1);
      }
    } else {
      forall j: nat | k <= j ensures env.tab.size <= EntryOff(0, ent, j) {
        if k < j { EntryOffMono(0, ent, k, j); }
      }
    }
  }

  /** The table is empty, or its entry size is not zero and every entry in front of sh_size is listable. */
  ghost predicate TableListable(c: Class, m: seq<byte>, env: SymEnv)
    requires EnvOk(c, env)
  {
    || env.tab.size == 0
    || (&& env.tab.entsize > 0
        && forall k: nat :: EntryOff(0, env.tab.entsize, k) < env.tab.size ==> Listable(c, m, env, k))
  }

  /** The symbol loop succeeds exactly on listable tables. */
  lemma SymbolLoopSucceeds(c: Class, m: seq<byte>, env: SymEnv)
    requires EnvOk(c, env) && |m| < c.Modulus() / 2
    ensures SymLoop(c, m, env, 0, 0, 0).code == Success <==> TableListable(c, m, env)
  {
    hide SymLoop, Listable, EntryOff;
    if env.tab.size == 0 || env.tab.entsize == 0 || c.Modulus() / 2 <= env.tab.entsize {
      OddTables(c, m, env);
    } else {
      FirstOffset(env.tab.entsize);
      LoopSucceedsFrom(c, m, env, 0, 0, 0, 0);
    }
  }

  /** Empty tables, and entry sizes that are zero or at least half the address space. */
  lemma OddTables(c: Class, m: seq<byte>, env: SymEnv)
    requires EnvOk(c, env) && |m| < c.Modulus() / 2
    requires env.tab.size == 0 || env.tab.entsize == 0 || c.Modulus() / 2 <= env.tab.entsize
    ensures SymLoop(c, m, env, 0, 0, 0).code == Success <==> TableListable(c, m, env)
  {
    hide SymLoop, SymStepAt, Listable, EntryOff, FailureOf;
    FirstOffset(env.tab.entsize);
    FirstRound(c, m, env);
    if 0 < env.tab.size {
      StepOutcome(c, m, env, 0, 0, 0, 0);
      if 0 < env.tab.entsize && SymStepAt(c, m, env, 0, 0, 0).Entry? {
        HugeEntries(c, m, env, SymStepAt(c, m, env, 0, 0, 0).sym.sh_offset);
      }
    }
  }

  /** The result code of the loop after its first round. */
  lemma FirstRound(c: Class, m: seq<byte>, env: SymEnv)
    requires EnvOk(c, env) && |m| < c.Modulus() / 2
    ensures SymLoop(c, m, env, 0, 0, 0).code
            == match SymStepAt(c, m, env, 0, 0, 0)
               case End => Success
               case Fail(code) => code
               case Entry(e) =>
                 if env.tab.entsize == 0 then Diverges else SymLoop(c, m, env, env.tab.entsize, 1, e.sh_offset).code
  {
    hide SymStepAt;
    if SymStepAt(c, m, env, 0, 0, 0).Entry? && env.tab.entsize > 0 {
      SymMeasureDecreases(c, |m|, env.tab.offset, env.tab.entsize, 0);
    }
  }

  lemma FirstOffset(ent: nat)
    ensures EntryOff(0, ent, 0) == 0 && EntryOff(0, ent, 1) == ent
  {
  }

  /** With an entry size of half the address space or more only a table of one entry parses. */
  lemma HugeEntries(c: Class, m: seq<byte>, env: SymEnv, sh: nat)
    requires EnvOk(c, env) && |m| < c.Modulus() / 2 <= env.tab.entsize && 0 < env.tab.size
    requires Listable(c, m, env, 0)
    ensures SymLoop(c, m, env, env.tab.entsize, 1, sh).code == Success
            <==> forall k: nat :: EntryOff(0, env.tab.entsize, k) < env.tab.size ==> Listable(c, m, env, k)
  {
    hide SymStepAt;
    var ent, size := env.tab.entsize, env.tab.size;
    if ent < size {
      NoWayBack(c, m, env, ent, 1, sh);
      assert EntryOff(0, ent, 1) < size && !Listable(c, m, env, 1);
    } else {
      forall k: nat | 0 < k ensures size <= EntryOff(0, ent, k) {
        EntryOffMono(0, ent, 0, k);
      }
    }
  }

  /** The first entry that is not listable decides the result code; the entries before it are listed. */
  lemma {:induction false} FirstFailureDecides(c: Class, m: seq<byte>, env: SymEnv, pos: nat, idx: nat, sh: nat,
                                               k: nat, j: nat)
    requires EnvOk(c, env) && |m| < c.Modulus() / 2
    requires pos == EntryOff(0, env.tab.entsize, k) && pos + env.tab.offset < c.Modulus() && idx < 0x1_0000
    requires k < j ==> 0 < env.tab.entsize < c.Modulus() / 2
    requires k <= j && EntryOff(0, env.tab.entsize, j) < env.tab.size && !Listable(c, m, env, j)
    requires forall i :: k <= i < j ==> Listable(c, m, env, i)
    ensures var r := SymLoop(c, m, env, pos, idx, sh);
            && r.code == FailureOf(c, m, env, j) && |r.syms| == j - k
            && ListMeans(c, m, env, r.syms, env.tab.offset + pos, idx, sh)
    decreases j - k
  {
    hide SymStepAt, Listable, EntryOff, FailureOf, ListMeans, EntryMeans;
    NoEntries(c, m, env, pos, idx, sh);
    if k < j { EntryOffMono(0, env.tab.entsize, k, j); }
    StepOutcome(c, m, env, pos, idx, sh, k);
    if k < j {
      var step := SymStepAt(c, m, env, pos, idx, sh);
      EntryOffStep(0, env.tab.entsize, k);
      var next := pos + env.tab.entsize;
      FirstFailureDecides(c, m, env, next, (idx + 1) % 0x1_0000, step.sym.sh_offset, k + 1, j);
      StepMeans(c, m, env, pos, idx, sh);
      var rest := SymLoop(c, m, env, next, (idx + 1) % 0x1_0000, step.sym.sh_offset).syms;
      ListMeansCons(c, m, env, step.sym, rest, env.tab.offset + pos, idx, sh);
    }
  }

  /** What the symbol parser works on once the sections are parsed. */
  ghost function ParseEnv(c: Class, m: seq<byte>): (env: SymEnv)
    requires EHDR_LEN <= |m| && ParseShdrs(c, m).code == Success
    ensures EnvOk(c, env) && env.hs == ParseShdrs(c, m).shdrs
    ensures env.strOff.Some? <==> ParseShdrs(c, m).strtab.Some?
  {
    var p := ParseShdrs(c, m);
    SymEnvOf(c, m, p.shdrs, LastSymtab(c, m, p.shdrs).value, p.strtab)
  }

  /** The result of a parse in terms of its parts, for an accepted header with readable program headers. */
  lemma ParseParts(m: seq<byte>)
    requires SmallBuffer(m) && EhdrOk(m) && ReadablePhdrs(ClassOf(m), m) == EhdrAt(ClassOf(m), m).phnum
    ensures var c := ClassOf(m);
            var ps, sections := PhdrRefs(c, m, EhdrAt(c, m).phnum), ParseShdrs(c, m);
            if sections.code == Success then
              var r := SymLoop(c, m, ParseEnv(c, m), 0, 0, 0);
              Parse(m) == sections.(phdrs := ps, code := r.code, syms := r.syms)
            else Parse(m) == sections.(phdrs := ps)
  {
    hide EhdrAt, ShdrAt, PhdrAt, ReadablePhdrs, SymLoop, FindStrtab, TablesFit;
    EhdrOkFacts(m);
  }

  /** When a parse succeeds: an accepted header, readable tables, a symbol table with a link, listable symbols. */
  lemma ParseSucceeds(m: seq<byte>)
    requires SmallBuffer(m)
    ensures Parse(m).code == Success
            <==> && EhdrOk(m)
                 && var c := ClassOf(m);
                 && ReadablePhdrs(c, m) == EhdrAt(c, m).phnum
                 && ParseShdrs(c, m).code == Success
                 && TableListable(c, m, ParseEnv(c, m))
  {
    hide EhdrAt, ShdrAt, PhdrAt, ReadablePhdrs, SymLoop, ParseShdrs, TableListable, TablesFit;
    if EhdrOk(m) {
      EhdrOkFacts(m);
      var c := ClassOf(m);
      if ReadablePhdrs(c, m) == EhdrAt(c, m).phnum {
        ParseParts(m);
        if ParseShdrs(c, m).code == Success {
          SymbolLoopSucceeds(c, m, ParseEnv(c, m));
        }
      }
    }
  }

  /** In a parsed section list the lookup is by position, and never finds the last section. */
  lemma {:induction false} SectionByIndex(c: Class, m: seq<byte>, n: nat, j: nat, x: nat, prev: nat)
    requires ShdrsIn(c, m, n) && j <= n
    ensures SectionOf(ShdrRefs(c, m, n)[..j], x, prev) == if x < j then ShdrRefAt(c, m, x).sh_offset else prev
  {
    hide EhdrAt, ShdrAt;
    var hs := ShdrRefs(c, m, n);
    if j > 0 {
      SectionByIndex(c, m, n, j - 1, x, prev);
      assert hs[..j][..j - 1] == hs[..j - 1] && hs[..j][j - 1] == ShdrRefAt(c, m, j - 1);
    }
  }

  /**
   * Entry k keeps the header offset of the section of the latest symbol j <= k whose
   * st_shndx is below e_shnum - 1, and 0 while there is none.
   */
  lemma {:induction false} SymbolSection(c: Class, m: seq<byte>, n: nat, env: SymEnv, syms: seq<SymRef>, j: nat, k: nat)
    requires ShdrsIn(c, m, n) && EnvOk(c, env) && env.hs == ShdrRefs(c, m, n)
    requires ListMeans(c, m, env, syms, env.tab.offset, 0, 0)
    requires j <= k < |syms|
    requires forall i :: j < i <= k ==>
               var off := EntryOff(env.tab.offset, env.tab.entsize, i);
               off + c.SymSize() <= |m| && SymAt(c, m, off).shndx >= n - 1
    ensures var off := EntryOff(env.tab.offset, env.tab.entsize, j);
            && off + c.SymSize() <= |m|
            && (SymAt(c, m, off).shndx < n - 1 ==>
                  syms[k].sh_offset == ShdrRefAt(c, m, SymAt(c, m, off).shndx).sh_offset)
            && (SymAt(c, m, off).shndx >= n - 1 && j == 0 ==> syms[k].sh_offset == 0)
    decreases k - j
  {
    hide EhdrAt, ShdrAt, SymAt, StringAt, AddW;
    var off := EntryOff(env.tab.offset, env.tab.entsize, k);
    var prev := if k == 0 then 0 else syms[k - 1].sh_offset;
    assert MeansAt(c, m, env, syms, env.tab.offset, 0, 0, k);
    if n > 0 {
      SectionByIndex(c, m, n, n - 1, SymAt(c, m, off).shndx, prev);
    }
    if j < k {
      SymbolSection(c, m, n, env, syms, j, k - 1);
    }
  }
}
