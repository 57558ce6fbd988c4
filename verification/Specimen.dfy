/** Parsing small images: accepted headers, and section tables of one section. */
module Specimen {
  import opened Bytes
  import opened Layout
  import opened ParseSpec
  import opened ParseFacts

  // ----- accepted headers -----

  lemma Entries(base: nat, ent: nat)
    ensures EntryOff(base, ent, 0) == base && EntryOff(base, ent, 1) == base + ent
    ensures EntryOff(base, ent, 2) == base + 2 * ent && EntryOff(base, ent, 3) == base + 3 * ent
  {
  }

  /** A header with full-size entries whose tables end in the buffer is accepted. */
  lemma Accepted(c: Class, m: seq<byte>)
    requires IdentOk(m) && ClassOf(m) == c && |m| < 0x8000_0000
    requires var e := EhdrAt(c, m);
             && e.phentsize == c.PhdrSize() && e.shentsize == c.ShdrSize()
             && e.phoff + c.PhdrSize() * e.phnum <= |m| && e.shoff + c.ShdrSize() * e.shnum <= |m|
    ensures EhdrOk(m)
  {
    hide EhdrAt, TableBytes;
    var e := EhdrAt(c, m);
    TableInside(c, e.phentsize, e.phnum, e.phoff, |m|);
    TableInside(c, e.shentsize, e.shnum, e.shoff, |m|);
  }

  // ----- two sections: a symbol table and its string table -----

  lemma TwoSectionChoices(c: Class, m: seq<byte>, h0: ShdrRef, h1: ShdrRef)
    requires h0.sh_offset + c.ShdrSize() <= |m| && h1.sh_offset + c.ShdrSize() <= |m| && h0.idx == 0 && h1.idx == 1
    requires ShdrAt(c, m, h0.sh_offset).shtype == SHT_SYMTAB && ShdrAt(c, m, h0.sh_offset).link == 1
    requires ShdrAt(c, m, h1.sh_offset).shtype == SHT_STRTAB
    ensures var hs := [h0, h1];
            && RefsIn(c, m, hs) && LastSymtab(c, m, hs) == Some(h0) && SymtabLink(c, m, hs) == 1
            && FindStrtab(c, m, hs, 0) == None && FindStrtab(c, m, hs, 1) == Some(h1)
  {
    hide ShdrAt, LastSymtab, FindStrtab, SymtabLink;
    LastSymtabSnoc(c, m, [], h0);
    LastSymtabSnoc(c, m, [h0], h1);
    FindStrtabNone(c, m, 0);
    FindStrtabNone(c, m, 1);
    FindStrtabSnoc(c, m, [], h0, 0);
    FindStrtabSnoc(c, m, [], h0, 1);
    FindStrtabSnoc(c, m, [h0], h1, 0);
    FindStrtabSnoc(c, m, [h0], h1, 1);
    assert [] + [h0] == [h0] && [h0] + [h1] == [h0, h1];
  }

  // ----- one section -----

  /** The only section header stands at off and is tab, a symbol table that links to itself. */
  ghost predicate OneSymtab(m: seq<byte>, off: nat, tab: Shdr)
  {
    && IdentOk(m) && ClassOf(m) == Class64 && |m| < 0x8000_0000 && off + 64 <= |m|
    && var e := EhdrAt(Class64, m);
    && e.phentsize == 56 && e.phoff + 56 * e.phnum <= |m|
    && e.shoff == off && e.shentsize == 64 && e.shnum == 1 && e.shstrndx == 0
    && ShdrAt(Class64, m, off) == tab && tab.shtype == SHT_SYMTAB && tab.link == 0
  }

  lemma OneSectionRef(m: seq<byte>, off: nat, tab: Shdr)
    requires OneSymtab(m, off, tab)
    ensures ShdrsIn(Class64, m, 1) && ShdrRefs(Class64, m, 1) == [ShdrRef(0, off, tab.offset)]
  {
    hide EhdrAt, ShdrAt, IdentOk, EntryOff;
    Entries(off, 64);
    assert ShdrRefs(Class64, m, 1)[0] == ShdrRefAt(Class64, m, 0);
  }

  lemma OneSectionChoices(m: seq<byte>, tab: Shdr, h: ShdrRef)
    requires h.sh_offset + 64 <= |m| && ShdrAt(Class64, m, h.sh_offset) == tab
    requires tab.shtype == SHT_SYMTAB && tab.link == 0
    ensures RefsIn(Class64, m, [h]) && LastSymtab(Class64, m, [h]) == Some(h) && SymtabLink(Class64, m, [h]) == 0
    ensures FindStrtab(Class64, m, [h], 0) == None
  {
    hide ShdrAt, LastSymtab, FindStrtab, SymtabLink;
    LastSymtabSnoc(Class64, m, [], h);
    FindStrtabNone(Class64, m, 0);
    FindStrtabSnoc(Class64, m, [], h, 0);
    assert [] + [h] == [h];
  }

  lemma OneSection(m: seq<byte>, off: nat, tab: Shdr, h: ShdrRef)
    requires OneSymtab(m, off, tab) && h == ShdrRef(0, off, tab.offset)
    ensures EhdrOk(m) && ParseShdrs(Class64, m) == Parsed(Success, [], [h], None, None, [])
    ensures ParseEnv(Class64, m) == SymEnv(tab, None, [h])
  {
    hide EhdrAt, ShdrAt, PhdrsIn, IdentOk, EhdrOk, Readable, ShdrRefs, EntryOff, LastSymtab, FindStrtab, SymtabLink;
    Accepted(Class64, m);
    Entries(off, 64);
    AllReadable(|m|, off, 64, 64, 1);
    OneSectionRef(m, off, tab);
    OneSectionChoices(m, tab, h);
  }

  /** Such a binary parses up to its symbols, which the symbol loop decides. */
  lemma OneSectionParses(m: seq<byte>, off: nat, tab: Shdr, h: ShdrRef)
    requires OneSymtab(m, off, tab) && h == ShdrRef(0, off, tab.offset)
    ensures EhdrOk(m) && EnvOk(Class64, SymEnv(tab, None, [h])) && PhdrsIn(Class64, m, EhdrAt(Class64, m).phnum)
    ensures var r := SymLoop(Class64, m, SymEnv(tab, None, [h]), 0, 0, 0);
            Parse(m) == Parsed(r.code, PhdrRefs(Class64, m, EhdrAt(Class64, m).phnum), [h], None, None, r.syms)
  {
    hide EhdrAt, ShdrAt, IdentOk, EhdrOk, Readable, Parse, ParseShdrs, ParseEnv, PhdrRefs, SymLoop;
    OneSection(m, off, tab, h);
    var e := EhdrAt(Class64, m);
    forall k | 0 <= k < e.phnum ensures EntryOff(e.phoff, e.phentsize, k) + 56 <= |m| {
    }
    AllReadable(|m|, e.phoff, e.phentsize, 56, e.phnum);
    ParseParts(m);
  }

  lemma NoSymbols(m: seq<byte>, env: SymEnv)
    requires EnvOk(Class64, env) && |m| < Class64.Modulus() / 2 && env.tab.size == 0
    ensures SymLoop(Class64, m, env, 0, 0, 0) == SymList(Success, [])
  {
  }
}
