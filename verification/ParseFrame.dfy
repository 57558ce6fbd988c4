/** Which bytes a successful parse depends on. */
module ParseFrame {
  import opened Bytes
  import opened Layout
  import opened ParseSpec

  // ----- decoded entries depend on their own bytes -----

  lemma FieldFrame(s: seq<byte>, t: seq<byte>, off: nat, n: nat)
    requires off + n <= |s| && off + n <= |t|
    requires forall i :: off <= i < off + n ==> s[i] == t[i]
    ensures U(s, off, n) == U(t, off, n)
  {
    assert s[off..off + n] == t[off..off + n];
  }

  /** The decoded ELF header depends only on the header of its class: 52 or 64 bytes. */
  lemma EhdrFrame(c: Class, m: seq<byte>, f: seq<byte>)
    requires EHDR_LEN <= |m| && EHDR_LEN <= |f| && Agree(m, f, 0, c.EhdrSize())
    ensures EhdrAt(c, m) == EhdrAt(c, f)
  {
    hide U;
    var s, t := m[..EHDR_LEN], f[..EHDR_LEN];
    var w := if c.Class32? then 4 else 8;
    var base := if c.Class32? then 42 else 54;
    FieldFrame(s, t, if c.Class32? then 28 else 32, w);
    FieldFrame(s, t, if c.Class32? then 32 else 40, w);
    FieldFrame(s, t, base, 2);
    FieldFrame(s, t, base + 2, 2);
    FieldFrame(s, t, base + 4, 2);
    FieldFrame(s, t, base + 6, 2);
    FieldFrame(s, t, base + 8, 2);
  }

  lemma ShdrFrame(c: Class, m: seq<byte>, f: seq<byte>, off: nat)
    requires Agree(m, f, off, off + c.ShdrSize())
    ensures ShdrAt(c, m, off) == ShdrAt(c, f, off)
  {
    AgreeSlice(m, f, off, off + c.ShdrSize());
  }

  lemma PhdrFrame(c: Class, m: seq<byte>, f: seq<byte>, off: nat)
    requires Agree(m, f, off, off + c.PhdrSize())
    ensures PhdrAt(c, m, off) == PhdrAt(c, f, off)
  {
    AgreeSlice(m, f, off, off + c.PhdrSize());
  }

  lemma SymFrame(c: Class, m: seq<byte>, f: seq<byte>, off: nat)
    requires Agree(m, f, off, off + c.SymSize())
    ensures SymAt(c, m, off) == SymAt(c, f, off)
  {
    AgreeSlice(m, f, off, off + c.SymSize());
  }

  /** The program headers of the table hold the same bytes in f. */
  ghost predicate PhdrsAgree(c: Class, m: seq<byte>, f: seq<byte>)
    requires EHDR_LEN <= |m|
  {
    var e := EhdrAt(c, m);
    forall k :: 0 <= k < e.phnum ==>
      Agree(m, f, EntryOff(e.phoff, e.phentsize, k), EntryOff(e.phoff, e.phentsize, k) + c.PhdrSize())
  }

  // ----- section headers -----

  /** All section headers of the table hold the same bytes in f. */
  ghost predicate ShdrsAgree(c: Class, m: seq<byte>, f: seq<byte>)
    requires EHDR_LEN <= |m|
  {
    var e := EhdrAt(c, m);
    forall k :: 0 <= k < e.shnum ==>
      Agree(m, f, EntryOff(e.shoff, e.shentsize, k), EntryOff(e.shoff, e.shentsize, k) + c.ShdrSize())
  }

  /** All wrappers of the list see the same section header in f. */
  ghost predicate RefsAgree(c: Class, m: seq<byte>, f: seq<byte>, hs: seq<ShdrRef>)
  {
    && RefsIn(c, m, hs) && RefsIn(c, f, hs)
    && forall i :: 0 <= i < |hs| ==> ShdrAt(c, m, hs[i].sh_offset) == ShdrAt(c, f, hs[i].sh_offset)
  }

  lemma {:induction false} ScansFrame(c: Class, m: seq<byte>, f: seq<byte>, hs: seq<ShdrRef>, x: int)
    requires RefsAgree(c, m, f, hs)
    ensures LastSymtab(c, m, hs) == LastSymtab(c, f, hs)
    ensures FindStrtab(c, m, hs, x) == FindStrtab(c, f, hs, x)
  {
    hide ShdrAt;
    if hs != [] {
      ScansFrame(c, m, f, hs[..|hs| - 1], x);
    }
  }

  // ----- headers that describe the same tables -----

  ghost predicate SameEntries(base: nat, ent: nat, base': nat, ent': nat, n: nat)
  {
    forall k :: 0 <= k < n ==> EntryOff(base, ent, k) == EntryOff(base', ent', k)
  }

  ghost predicate InRange(c: Class, e: Ehdr)
  {
    && e.phoff < c.Modulus() && e.shoff < c.Modulus()
    && e.phentsize < 0x1_0000 && e.phnum < 0x1_0000 && e.shentsize < 0x1_0000 && e.shnum < 0x1_0000
  }

  /** Header e' names the section headers and the section name table that the header of m names. */
  ghost predicate SectionsAlike(c: Class, m: seq<byte>, e': Ehdr)
    requires EHDR_LEN <= |m|
  {
    var e, hs := EhdrAt(c, m), ParseShdrs(c, m).shdrs;
    && e'.shnum == e.shnum && SameEntries(e.shoff, e.shentsize, e'.shoff, e'.shentsize, e.shnum)
    && FindStrtab(c, m, hs, e'.shstrndx) == FindStrtab(c, m, hs, e.shstrndx)
  }

  /** Header e' passes the checks for a buffer of len bytes and describes the tables the header of m describes. */
  ghost predicate ReadsAlike(c: Class, m: seq<byte>, e': Ehdr, len: nat)
    requires EHDR_LEN <= |m|
  {
    var e := EhdrAt(c, m);
    && InRange(c, e') && TablesFit(c, e', len)
    && e'.phnum == e.phnum && SameEntries(e.phoff, e.phentsize, e'.phoff, e'.phentsize, e.phnum)
    && SectionsAlike(c, m, e')
  }

  lemma OwnHeaderReadsAlike(m: seq<byte>, len: nat)
    requires EhdrOk(m) && |m| <= len
    ensures ReadsAlike(ClassOf(m), m, EhdrAt(ClassOf(m), m), len)
  {
    hide EhdrAt, ParseShdrs, FindStrtab, TableBytes, EntryOff;
  }

  lemma ParseShdrsFrame(c: Class, m: seq<byte>, f: seq<byte>)
    requires EHDR_LEN <= |m| <= |f| && SectionsAlike(c, m, EhdrAt(c, f))
    requires ParseShdrs(c, m).code == Success
    requires ShdrsAgree(c, m, f)
    ensures ParseShdrs(c, f) == ParseShdrs(c, m)
    ensures RefsAgree(c, m, f, ParseShdrs(c, m).shdrs)
  {
    hide EhdrAt, ShdrAt, Readable, LastSymtab, FindStrtab, EntryOff;
    var e, e' := EhdrAt(c, m), EhdrAt(c, f);
    AllReadable(|f|, e'.shoff, e'.shentsize, c.ShdrSize(), e'.shnum);
    var hs := ShdrRefs(c, m, e.shnum);
    forall k | 0 <= k < e.shnum
      ensures ShdrAt(c, m, hs[k].sh_offset) == ShdrAt(c, f, hs[k].sh_offset)
      ensures ShdrRefAt(c, m, k) == ShdrRefAt(c, f, k)
    {
      assert hs[k] == ShdrRefAt(c, m, k);
      ShdrFrame(c, m, f, EntryOff(e.shoff, e.shentsize, k));
    }
    assert hs == ShdrRefs(c, f, e.shnum);
    ScansFrame(c, m, f, hs, e'.shstrndx);
    ScansFrame(c, m, f, hs, SymtabLink(c, m, hs));
  }

  // ----- symbols -----

  /** The entry and the name of a listed symbol hold the same bytes in f. */
  ghost predicate SymKept(c: Class, m: seq<byte>, f: seq<byte>, strOff: nat, s: SymRef)
    requires strOff < c.Modulus()
  {
    && Agree(m, f, s.sym_offset, s.sym_offset + c.SymSize())
    && var o := AddW(c, SymAt(c, m, s.sym_offset).name, strOff);
       Agree(m, f, o, o + |s.name| + 1)
  }

  lemma StepFrame(c: Class, m: seq<byte>, f: seq<byte>, env: SymEnv, pos: nat, idx: nat, sh: nat)
    requires EnvOk(c, env) && pos < c.Modulus() && |m| <= |f| < c.Modulus() / 2
    requires !SymStepAt(c, m, env, pos, idx, sh).Fail?
    requires SymStepAt(c, m, env, pos, idx, sh).Entry? ==>
               env.strOff.Some? && SymKept(c, m, f, env.strOff.value, SymStepAt(c, m, env, pos, idx, sh).sym)
    ensures SymStepAt(c, f, env, pos, idx, sh) == SymStepAt(c, m, env, pos, idx, sh)
  {
    hide SymAt, CStr, SectionOf;
    var step := SymStepAt(c, m, env, pos, idx, sh);
    if step.Entry? {
      var off := step.sym.sym_offset;
      SymFrame(c, m, f, off);
      CStrFrame(m, f, AddW(c, SymAt(c, m, off).name, env.strOff.value), step.sym.name);
    }
  }

  lemma {:induction false} SymLoopFrame(c: Class, m: seq<byte>, f: seq<byte>, env: SymEnv, pos: nat, idx: nat, sh: nat)
    requires EnvOk(c, env) && pos < c.Modulus() && |m| <= |f| < c.Modulus() / 2
    requires SymLoop(c, m, env, pos, idx, sh).code == Success
    requires var syms := SymLoop(c, m, env, pos, idx, sh).syms;
             forall i :: 0 <= i < |syms| ==> env.strOff.Some? && SymKept(c, m, f, env.strOff.value, syms[i])
    ensures SymLoop(c, f, env, pos, idx, sh) == SymLoop(c, m, env, pos, idx, sh)
    decreases SymMeasure(c, |m|, AddW(c, pos, env.tab.offset), env.tab.entsize)
  {
    hide SymStepAt, SymKept;
    var step := SymStepAt(c, m, env, pos, idx, sh);
    var syms := SymLoop(c, m, env, pos, idx, sh).syms;
    if step.Entry? {
      assert syms[0] == step.sym;
    }
    StepFrame(c, m, f, env, pos, idx, sh);
    if step.Entry? {
      SymMeasureDecreases(c, |m|, env.tab.offset, env.tab.entsize, pos);
      var pos' := AddW(c, pos, env.tab.entsize);
      var rest := SymLoop(c, m, env, pos', (idx + 1) % 0x1_0000, step.sym.sh_offset).syms;
      assert forall i :: 0 <= i < |rest| ==> rest[i] == syms[i + 1];
      SymLoopFrame(c, m, f, env, pos', (idx + 1) % 0x1_0000, step.sym.sh_offset);
    }
  }

  // ----- the whole parse -----

  /** Every listed symbol keeps its entry and name in f. */
  ghost predicate SymsKept(c: Class, m: seq<byte>, f: seq<byte>, p: Parsed)
  {
    p.syms != [] ==>
      && p.strtab.Some? && p.strtab.value.sh_offset + c.ShdrSize() <= |m|
      && forall i :: 0 <= i < |p.syms| ==>
           SymKept(c, m, f, ShdrAt(c, m, p.strtab.value.sh_offset).offset, p.syms[i])
  }

  lemma PhdrRefsFrame(c: Class, m: seq<byte>, f: seq<byte>)
    requires EHDR_LEN <= |m| <= |f| && ReadsAlike(c, m, EhdrAt(c, f), |f|) && PhdrsAgree(c, m, f)
    ensures var n := EhdrAt(c, m).phnum;
            && PhdrsIn(c, m, n) && PhdrsIn(c, f, n)
            && PhdrRefs(c, f, n) == PhdrRefs(c, m, n)
  {
    hide EhdrAt, PhdrAt, SectionsAlike, EntryOff, TablesFit;
    var e, e', n := EhdrAt(c, m), EhdrAt(c, f), EhdrAt(c, m).phnum;
    forall k | 0 <= k < n
      ensures EntryOff(e.phoff, e.phentsize, k) + c.PhdrSize() <= |m|
      ensures EntryOff(e'.phoff, e'.phentsize, k) + c.PhdrSize() <= |f|
    {
      assert Agree(m, f, EntryOff(e.phoff, e.phentsize, k), EntryOff(e.phoff, e.phentsize, k) + c.PhdrSize());
    }
    forall k | 0 <= k < n ensures PhdrRefAt(c, f, k) == PhdrRefAt(c, m, k) {
      PhdrFrame(c, m, f, EntryOff(e.phoff, e.phentsize, k));
    }
    assert PhdrRefs(c, f, n) == PhdrRefs(c, m, n);
  }

  /**
   * A buffer whose header describes the same tables, and which keeps the section headers
   * and the symbols, parses like m, except that its program headers are its own.
   */
  lemma ParseDependsOnTables(m: seq<byte>, f: seq<byte>)
    requires SmallBuffer(m) && SmallBuffer(f) && |m| <= |f|
    requires Parse(m).code == Success && EHDR_LEN <= |m|
    requires IdentOk(f) && ClassOf(f) == ClassOf(m)
    requires ReadsAlike(ClassOf(m), m, EhdrAt(ClassOf(m), f), |f|)
    requires ShdrsAgree(ClassOf(m), m, f)
    requires SymsKept(ClassOf(m), m, f, Parse(m))
    ensures var c := ClassOf(m); var n := EhdrAt(c, m).phnum;
            && PhdrsIn(c, f, n)
            && Parse(f) == Parse(m).(phdrs := PhdrRefs(c, f, n))
  {
    hide EhdrAt, ShdrAt, Readable, SymKept, LastSymtab, ParseShdrs, SymLoop, SectionsAlike, EntryOff, TablesFit;
    EhdrOkFacts(m);
    var c := ClassOf(m);
    var e, e' := EhdrAt(c, m), EhdrAt(c, f);
    assert EhdrOk(f);
    EhdrOkFacts(f);
    AllReadable(|f|, e'.phoff, e'.phentsize, c.PhdrSize(), e'.phnum);
    ParseShdrsFrame(c, m, f);
    var p := ParseShdrs(c, m);
    ScansFrame(c, m, f, p.shdrs, 0);
    var symtab := LastSymtab(c, m, p.shdrs).value;
    var env := SymEnvOf(c, m, p.shdrs, symtab, p.strtab);
    assert env == SymEnvOf(c, f, p.shdrs, symtab, p.strtab);
    SymLoopFrame(c, m, f, env, 0, 0, 0);
  }

  /**
   * A buffer that keeps the header, the section headers and the symbols parses like m,
   * except that its program headers are its own.
   */
  lemma ParseDependsOn(m: seq<byte>, f: seq<byte>)
    requires SmallBuffer(m) && SmallBuffer(f) && |m| <= |f|
    requires Parse(m).code == Success
    requires EHDR_LEN <= |m| && Agree(m, f, 0, ClassOf(m).EhdrSize())
    requires ShdrsAgree(ClassOf(m), m, f)
    requires SymsKept(ClassOf(m), m, f, Parse(m))
    ensures var c := ClassOf(m); var n := EhdrAt(c, m).phnum;
            && PhdrsIn(c, f, n)
            && Parse(f) == Parse(m).(phdrs := PhdrRefs(c, f, n))
  {
    hide EhdrAt, ParseShdrs, ParseSyms, SymsKept, ShdrsAgree, ReadsAlike, TablesFit;
    EhdrOkFacts(m);
    EhdrFrame(ClassOf(m), m, f);
    OwnHeaderReadsAlike(m, |f|);
    ParseDependsOnTables(m, f);
  }

  /** Conversely, only a header that describes the same tables gives the same result. */
  lemma SameParseReadsAlike(m: seq<byte>, f: seq<byte>)
    requires SmallBuffer(m) && SmallBuffer(f) && EHDR_LEN <= |m| <= |f|
    requires Parse(m).code == Success && Parse(f) == Parse(m) && ClassOf(f) == ClassOf(m)
    requires ShdrsAgree(ClassOf(m), m, f)
    ensures ReadsAlike(ClassOf(m), m, EhdrAt(ClassOf(m), f), |f|)
  {
    hide EhdrAt, ShdrAt, PhdrAt, Readable, SymLoop, LastSymtab, FindStrtab, EntryOff, TablesFit, ParseSyms, SymtabLink;
    EhdrOkFacts(m);
    EhdrOkFacts(f);
    var c, p := ClassOf(m), Parse(m);
    var e, e' := EhdrAt(c, m), EhdrAt(c, f);
    forall k | 0 <= k < e.phnum
      ensures EntryOff(e.phoff, e.phentsize, k) == EntryOff(e'.phoff, e'.phentsize, k)
    {
      assert Parse(m).phdrs[k] == PhdrRefAt(c, m, k) && Parse(f).phdrs[k] == PhdrRefAt(c, f, k);
    }
    forall k | 0 <= k < e.shnum
      ensures EntryOff(e.shoff, e.shentsize, k) == EntryOff(e'.shoff, e'.shentsize, k)
      ensures ShdrAt(c, m, p.shdrs[k].sh_offset) == ShdrAt(c, f, p.shdrs[k].sh_offset)
    {
      assert Parse(m).shdrs[k] == ShdrRefAt(c, m, k) && Parse(f).shdrs[k] == ShdrRefAt(c, f, k);
      ShdrFrame(c, m, f, EntryOff(e.shoff, e.shentsize, k));
    }
    ScansFrame(c, m, f, p.shdrs, e'.shstrndx);
  }
}
