/**
 * Binaries of 128 bytes, an ELF64 header and one section header, on which the library
 * fails: a copy without a header, a missing string table.
 */
module TinyBinary {
  import opened Bytes
  import opened Layout
  import opened ParseSpec
  import opened ParseFacts
  import opened WriteSpec
  import opened WriteFacts
  import opened Decoded
  import opened Specimen

  /** The one section is an SHT_SYMTAB of size bytes at offset 0, with entries of that size. */
  function Tiny(size: byte): (m: seq<byte>)
    ensures |m| == 128 && forall i :: 0 <= i < 128 ==> m[i] == TinyByte(size, i)
  {
    seq(128, i => TinyByte(size, i))
  }

  function TinyByte(size: byte, i: int): byte
  {
    if i == 0 then 0x7f else if i == 1 then 0x45 else if i == 2 then 0x4c else if i == 3 then 0x46
    else if i == 4 then 2 else if i == 5 then 1 else if i == 6 then 1
    else if i == 40 then 64                         // e_shoff
    else if i == 54 then 56                         // e_phentsize
    else if i == 58 then 64 else if i == 60 then 1  // e_shentsize, e_shnum
    else if i == 68 then 2                          // sh_type: SHT_SYMTAB
    else if i == 96 then size                       // sh_size
    else if i == 120 then size                      // sh_entsize
    else 0
  }

  /** What matters about a tiny binary. */
  ghost predicate TinyLike(m: seq<byte>, size: byte)
  {
    && |m| == 128 && OneSymtab(m, 64, Shdr(SHT_SYMTAB, 0, size, 0, size))
    && EhdrAt(Class64, m).phnum == 0 && EhdrAt(Class64, m).phoff == 0
  }

  lemma TinyIsTinyLike(size: byte)
    ensures TinyLike(Tiny(size), size)
  {
    hide EhdrAt, ShdrAt;
    var m := Tiny(size);
    EhdrFields(m);
    ShdrFields64(m, 64);
  }

  // ----- the lost header -----

  lemma Copied(m: seq<byte>, h: ShdrRef)
    requires TinyLike(m, 0) && h == ShdrRef(0, 64, 0)
    ensures WriterSafe(Class64, m, [], [h])
    ensures !Kept(Class64, m, [], [h], 0)
  {
    hide EhdrAt, ShdrAt, PhdrAt, IdentOk, SectionWrites, ShdrTableWrites, EntryOff;
    Entries(64, 64);
    Entries(0, 56);
    assert ShdrTableWrites(Class64, m, [h]) == [Chunk(64, 64, 64)];
    assert SectionWrites(Class64, m, [h]) == [Chunk(0, 0, 0)];
  }

  lemma CopyRejected(m: seq<byte>, h: ShdrRef)
    requires TinyLike(m, 0) && h == ShdrRef(0, 64, 0)
    ensures Parse(m).code == Success && Parse(m).phdrs == [] && Parse(m).shdrs == [h]
    ensures WriterSafe(Class64, m, [], [h])
    ensures SmallBuffer(Written(Class64, m, [], [h])) && Parse(Written(Class64, m, [], [h])).code == EFAULT
  {
    hide EhdrAt, ShdrAt, EhdrOk, IdentOk, Parse, Written, Coherent, WriterSafe, Kept, InExtraSlots, SymLoop;
    OneSectionParses(m, 64, Shdr(SHT_SYMTAB, 0, 0, 0, 0), h);
    NoSymbols(m, SymEnv(Shdr(SHT_SYMTAB, 0, 0, 0, 0), None, [h]));
    ParsedIsCoherent(m);
    ParsedIsClear(m);
    Copied(m, h);
    LostHeaderRejected(m, [], [h]);
  }

  /** Parse, write, parse is not the identity: the copy of this binary is rejected. */
  lemma HeaderIsLost() returns (m: seq<byte>)
    ensures SmallBuffer(m) && Parse(m).code == Success && EHDR_LEN <= |m|
    ensures WriterSafe(Class64, m, Parse(m).phdrs, Parse(m).shdrs)
    ensures var f := Written(Class64, m, Parse(m).phdrs, Parse(m).shdrs); SmallBuffer(f) && Parse(f).code == EFAULT
  {
    hide Tiny, TinyLike, Parse, Written, WriterSafe;
    m := Tiny(0);
    TinyIsTinyLike(0);
    CopyRejected(m, ShdrRef(0, 64, 0));
  }

  // ----- the missing string table -----

  /** Without a string table the first entry decides. */
  lemma NoStrtab(m: seq<byte>, env: SymEnv)
    requires EnvOk(Class64, env) && |m| < Class64.Modulus() / 2 && env.strOff == None
    requires 0 < env.tab.size && env.tab.offset + 64 <= |m|
    ensures SymLoop(Class64, m, env, 0, 0, 0).code == Undefined
  {
    hide SymLoop, SymAt, CStr, EntryOff, ListMeans;
    Entries(0, env.tab.entsize);
    Entries(env.tab.offset, env.tab.entsize);
    FirstFailureDecides(Class64, m, env, 0, 0, 0, 0, 0);
  }

  /** Without a string table the loop reports an error and then follows the missing pointer. */
  lemma MissingStrtabFollowed() returns (m: seq<byte>)
    ensures SmallBuffer(m) && Parse(m).code == Undefined && Parse(m).strtab == None
  {
    hide Tiny, EhdrAt, ShdrAt, IdentOk, Parse, SymLoop;
    m := Tiny(24);
    TinyIsTinyLike(24);
    var tab, h := Shdr(SHT_SYMTAB, 0, 24, 0, 24), ShdrRef(0, 64, 0);
    OneSectionParses(m, 64, tab, h);
    NoStrtab(m, SymEnv(tab, None, [h]));
  }
}
