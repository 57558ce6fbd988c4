/**
 * A family of images, in both classes, with one segment, a string table, and a table of
 * three symbols at the end of the file.  The names of the last two symbols, the type of the
 * last, and the length of the file can be chosen.
 */
module SampleBinary {
  import opened Bytes
  import opened Layout
  import opened ParseSpec
  import opened ParseFacts
  import opened Decoded
  import opened Specimen
  import opened CrossWidth

  /** st_name of the second and the third symbol, and st_info of the third. */
  datatype Choice = Choice(name1: byte, name2: byte, info2: byte)

  /** Every symbol lies in front of this offset. */
  function End(c: Class): nat
  {
    if c.Class32? then 312 else 336
  }

  function Sample(c: Class, len: nat, ch: Choice): (m: seq<byte>)
    ensures |m| == len && forall i :: 0 <= i < len ==> m[i] == ByteAt(c, ch, i)
  {
    seq(len, i => ByteAt(c, ch, i))
  }

  function ByteAt(c: Class, ch: Choice, i: int): byte
  {
    if i < 64 then (if c.Class32? then HeaderByte32(i) else HeaderByte64(i))
    else if i < 120 then (if c.Class32? then SegmentByte32(i) else SegmentByte64(i))
    else if i < 248 then (if c.Class32? then SectionByte32(i) else SectionByte64(i))
    else if i < 264 then StringByte(i)
    else if c.Class32? then SymbolByte32(ch, i)
    else SymbolByte64(ch, i)
  }

  function HeaderByte32(i: int): byte
  {
    if i == 0 then 0x7f else if i == 1 then 0x45 else if i == 2 then 0x4c else if i == 3 then 0x46
    else if i == 4 then 1 else if i == 5 then 1 else if i == 6 then 1
    else if i == 28 then 64 else if i == 32 then 120     // e_phoff, e_shoff
    else if i == 42 then 32 else if i == 44 then 1       // e_phentsize, e_phnum
    else if i == 46 then 40 else if i == 48 then 2       // e_shentsize, e_shnum
    else 0
  }

  function HeaderByte64(i: int): byte
  {
    if i == 0 then 0x7f else if i == 1 then 0x45 else if i == 2 then 0x4c else if i == 3 then 0x46
    else if i == 4 then 2 else if i == 5 then 1 else if i == 6 then 1
    else if i == 32 then 64 else if i == 40 then 120     // e_phoff, e_shoff
    else if i == 54 then 56 else if i == 56 then 1       // e_phentsize, e_phnum
    else if i == 58 then 64 else if i == 60 then 2       // e_shentsize, e_shnum
    else 0
  }

  /** A PT_LOAD that maps 3 addresses from 4096 on; only the first is file-backed, at offset 248. */
  function SegmentByte32(i: int): byte
  {
    if i == 64 then 1
    else if i == 68 then 248                             // p_offset
    else if i == 73 then 16                              // p_vaddr
    else if i == 80 then 1 else if i == 84 then 3        // p_filesz, p_memsz
    else 0
  }

  function SegmentByte64(i: int): byte
  {
    if i == 64 then 1
    else if i == 72 then 248
    else if i == 81 then 16
    else if i == 96 then 1 else if i == 104 then 3
    else 0
  }

  /** SHT_SYMTAB at 264 with three entries and link 1; SHT_STRTAB at 248 with 16 bytes. */
  function SectionByte32(i: int): byte
  {
    if i == 124 then 2                                   // sh_type
    else if i == 136 then 8 else if i == 137 then 1      // sh_offset
    else if i == 140 then 48                             // sh_size
    else if i == 144 then 1 else if i == 156 then 16     // sh_link, sh_entsize
    else if i == 164 then 3
    else if i == 176 then 248 else if i == 180 then 16
    else 0
  }

  function SectionByte64(i: int): byte
  {
    if i == 124 then 2
    else if i == 144 then 8 else if i == 145 then 1
    else if i == 152 then 72
    else if i == 160 then 1 else if i == 176 then 24
    else if i == 188 then 3
    else if i == 208 then 248 else if i == 216 then 16
    else 0
  }

  /** "" at 0, "\x7f" at 1, "aA" at 3, "a\xc8" at 6, "a" at 9. */
  function StringByte(i: int): byte
  {
    if i == 249 then 127
    else if i == 251 then 97 else if i == 252 then 65
    else if i == 254 then 97 else if i == 255 then 200
    else if i == 257 then 97
    else 0
  }

  /** The null symbol and two of size 1: one at the segment's start, one at its first zero-filled address. */
  function SymbolByte32(ch: Choice, i: int): byte
  {
    if i == 280 then ch.name1                            // st_name
    else if i == 285 then 16 else if i == 288 then 1     // st_value, st_size
    else if i == 296 then ch.name2
    else if i == 300 then 1 else if i == 301 then 16 else if i == 304 then 1
    else if i == 308 then ch.info2                       // st_info
    else 0
  }

  function SymbolByte64(ch: Choice, i: int): byte
  {
    if i == 288 then ch.name1
    else if i == 297 then 16 else if i == 304 then 1
    else if i == 312 then ch.name2 else if i == 316 then ch.info2
    else if i == 320 then 1 else if i == 321 then 16 else if i == 328 then 1
    else 0
  }

  /** The names in the string table. */
  function NameOf(n: nat): seq<byte>
  {
    if n == 1 then [127] else if n == 3 then [97, 65] else if n == 6 then [97, 200] else if n == 9 then [97] else []
  }

  predicate Known(n: nat)
  {
    n == 0 || n == 1 || n == 3 || n == 6 || n == 9
  }

  /** st_name of symbol k. */
  function NameOff(ch: Choice, k: nat): nat
  {
    if k == 1 then ch.name1 else if k == 2 then ch.name2 else 0
  }

  // ----- what the structures of an image say -----

  const SEGMENT: Phdr := Phdr(1, 0, 248, 4096, 0, 1, 3, 0)
  const STRTAB: Shdr := Shdr(3, 248, 16, 0, 0)
  const H0: ShdrRef := ShdrRef(0, 120, 264)

  function Symtab(c: Class): Shdr
  {
    if c.Class32? then Shdr(2, 264, 48, 1, 16) else Shdr(2, 264, 72, 1, 24)
  }

  function H1(c: Class): ShdrRef
  {
    ShdrRef(1, if c.Class32? then 160 else 184, 248)
  }

  function HeaderOf(c: Class): Ehdr
  {
    if c.Class32? then Ehdr(64, 120, 32, 1, 40, 2, 0) else Ehdr(64, 120, 56, 1, 64, 2, 0)
  }

  /** File offset of symbol k. */
  function SymOff(c: Class, k: nat): nat
  {
    if c.Class32? then 264 + 16 * k else 264 + 24 * k
  }

  /** What the three symbols say. */
  function SymbolIs(ch: Choice, k: nat): Sym
    requires k < 3
  {
    Sym(NameOff(ch, k), if k == 2 then ch.info2 as nat else 0, 0,
        if k == 0 then 0 else 4095 + k, if k == 0 then 0 else 1)
  }

  /** What matters about an image. */
  ghost predicate Like(c: Class, m: seq<byte>, ch: Choice)
  {
    && End(c) <= |m| < 0x8000_0000 && IdentOk(m) && ClassOf(m) == c
    && EhdrAt(c, m) == HeaderOf(c) && PhdrAt(c, m, 64) == SEGMENT
    && ShdrAt(c, m, 120) == Symtab(c) && ShdrAt(c, m, H1(c).sh_offset) == STRTAB
    && (forall k :: 0 <= k < 3 ==> SymAt(c, m, SymOff(c, k)) == SymbolIs(ch, k))
    && (forall n: nat :: Known(n) ==> CStr(m, 248 + n) == Some(NameOf(n)))
    && m[249] == 127
  }

  // ----- decoding the bytes -----

  lemma Header32Is(m: seq<byte>, ch: Choice)
    requires 312 <= |m| && m == Sample(Class32, |m|, ch)
    ensures IdentOk(m) && ClassOf(m) == Class32 && EhdrAt(Class32, m) == HeaderOf(Class32)
  {
    hide EhdrAt;
    EhdrFields(m);
  }

  lemma Header64Is(m: seq<byte>, ch: Choice)
    requires 336 <= |m| && m == Sample(Class64, |m|, ch)
    ensures IdentOk(m) && ClassOf(m) == Class64 && EhdrAt(Class64, m) == HeaderOf(Class64)
  {
    hide EhdrAt;
    EhdrFields(m);
  }

  lemma SegmentIs(c: Class, m: seq<byte>, ch: Choice)
    requires End(c) <= |m| && m == Sample(c, |m|, ch)
    ensures PhdrAt(c, m, 64) == SEGMENT
  {
    hide PhdrAt, HeaderByte32, HeaderByte64, StringByte, SymbolByte32, SymbolByte64;
    if c.Class32? { PhdrFields32(m, 64); } else { PhdrFields64(m, 64); }
  }

  lemma SymtabIs(c: Class, m: seq<byte>, ch: Choice)
    requires End(c) <= |m| && m == Sample(c, |m|, ch)
    ensures ShdrAt(c, m, 120) == Symtab(c)
  {
    hide ShdrAt, HeaderByte32, HeaderByte64, SegmentByte32, SegmentByte64, StringByte, SymbolByte32, SymbolByte64;
    if c.Class32? { ShdrFields32(m, 120); } else { ShdrFields64(m, 120); }
  }

  lemma StrtabIs(c: Class, m: seq<byte>, ch: Choice)
    requires End(c) <= |m| && m == Sample(c, |m|, ch)
    ensures ShdrAt(c, m, H1(c).sh_offset) == STRTAB
  {
    hide ShdrAt, HeaderByte32, HeaderByte64, SegmentByte32, SegmentByte64, StringByte, SymbolByte32, SymbolByte64;
    if c.Class32? { ShdrFields32(m, 160); } else { ShdrFields64(m, 184); }
  }

  lemma SymbolsAre(c: Class, m: seq<byte>, ch: Choice, k: nat)
    requires End(c) <= |m| && m == Sample(c, |m|, ch) && k < 3
    ensures SymAt(c, m, SymOff(c, k)) == SymbolIs(ch, k)
  {
    hide SymAt, HeaderByte32, HeaderByte64, SegmentByte32, SegmentByte64, SectionByte32, SectionByte64, StringByte;
    if c.Class32? { SymFields32(m, SymOff(c, k)); } else { SymFields64(m, SymOff(c, k)); }
  }

  lemma NamesAre(c: Class, m: seq<byte>, ch: Choice, n: nat)
    requires End(c) <= |m| && m == Sample(c, |m|, ch) && Known(n)
    ensures CStr(m, 248 + n) == Some(NameOf(n)) && m[249] == 127
  {
    hide CStr, HeaderByte32, HeaderByte64, SegmentByte32, SegmentByte64, SectionByte32, SectionByte64;
    hide SymbolByte32, SymbolByte64;
    CStrMeaning(m, 248 + n, NameOf(n));
  }

  lemma SampleIsLike(c: Class, len: nat, ch: Choice)
    requires End(c) <= len < 0x8000_0000
    ensures Like(c, Sample(c, len, ch), ch)
  {
    hide EhdrAt, PhdrAt, ShdrAt, SymAt, CStr, IdentOk, ByteAt, NameOf, SymbolIs, Symtab;
    var m := Sample(c, len, ch);
    if c.Class32? { Header32Is(m, ch); } else { Header64Is(m, ch); }
    SegmentIs(c, m, ch);
    SymtabIs(c, m, ch);
    StrtabIs(c, m, ch);
    forall k | 0 <= k < 3 ensures SymAt(c, m, SymOff(c, k)) == SymbolIs(ch, k) {
      SymbolsAre(c, m, ch, k);
    }
    NamesAre(c, m, ch, 0);
    forall n: nat | Known(n) ensures CStr(m, 248 + n) == Some(NameOf(n)) {
      NamesAre(c, m, ch, n);
    }
  }

  lemma LikeFacts(c: Class, m: seq<byte>, ch: Choice)
    requires Like(c, m, ch)
    ensures End(c) <= |m| < 0x8000_0000 && SmallBuffer(m) && ClassOf(m) == c && EhdrAt(c, m).phnum == 1
  {
    hide EhdrAt, PhdrAt, ShdrAt, SymAt, CStr;
  }

  // ----- its sections -----

  lemma Wrappers(c: Class, m: seq<byte>, ch: Choice)
    requires Like(c, m, ch)
    ensures EhdrOk(m) && ReadablePhdrs(c, m) == 1 && ReadableShdrs(c, m) == 2
    ensures PhdrRefs(c, m, 1) == [PhdrRef(0, 64, 248)] && ShdrRefs(c, m, 2) == [H0, H1(c)]
  {
    hide EhdrAt, PhdrAt, ShdrAt, SymAt, CStr, IdentOk, EhdrOk, EntryOff, Known;
    Accepted(c, m);
    Entries(64, c.PhdrSize());
    Entries(120, c.ShdrSize());
    AllReadable(|m|, 64, c.PhdrSize(), c.PhdrSize(), 1);
    AllReadable(|m|, 120, c.ShdrSize(), c.ShdrSize(), 2);
    var ps, hs := PhdrRefs(c, m, 1), ShdrRefs(c, m, 2);
    assert ps[0] == PhdrRefAt(c, m, 0);
    assert hs[0] == ShdrRefAt(c, m, 0) && hs[1] == ShdrRefAt(c, m, 1);
  }

  lemma Choices(c: Class, m: seq<byte>)
    requires 248 <= |m| && ShdrAt(c, m, 120) == Symtab(c) && ShdrAt(c, m, H1(c).sh_offset) == STRTAB
    ensures var hs := [H0, H1(c)];
            && RefsIn(c, m, hs) && LastSymtab(c, m, hs) == Some(H0) && SymtabLink(c, m, hs) == 1
            && FindStrtab(c, m, hs, 0) == None && FindStrtab(c, m, hs, 1) == Some(H1(c))
  {
    hide ShdrAt, LastSymtab, FindStrtab, SymtabLink;
    TwoSectionChoices(c, m, H0, H1(c));
  }

  function EnvOf(c: Class): SymEnv
  {
    SymEnv(Symtab(c), Some(248), [H0, H1(c)])
  }

  lemma Sections(c: Class, m: seq<byte>, ch: Choice)
    requires Like(c, m, ch)
    ensures EhdrOk(m) && ParseShdrs(c, m) == Parsed(Success, [], [H0, H1(c)], None, Some(H1(c)), [])
    ensures ParseEnv(c, m) == EnvOf(c)
  {
    hide EhdrAt, PhdrAt, ShdrAt, SymAt, CStr, IdentOk, EhdrOk, ReadablePhdrs, ReadableShdrs, ShdrRefs, PhdrRefs, Known;
    hide LastSymtab, FindStrtab, SymtabLink;
    Wrappers(c, m, ch);
    Choices(c, m);
  }

  // ----- its symbols -----

  lemma SymbolOffset(c: Class, k: nat)
    ensures EntryOff(264, Symtab(c).entsize, k) == SymOff(c, k)
    ensures EntryOff(0, Symtab(c).entsize, k) == SymOff(c, k) - 264
  {
  }

  /** Names of symbols are names of the string table. */
  ghost predicate Named(ch: Choice)
  {
    Known(ch.name1 as nat) && Known(ch.name2 as nat)
  }

  lemma NameKnown(ch: Choice, k: nat)
    requires Named(ch) && k < 3
    ensures Known(NameOff(ch, k)) && NameOff(ch, k) <= 9 && SymbolIs(ch, k).name == NameOff(ch, k)
  {
  }

  /** Symbol k passes its checks exactly when 64 bytes follow its offset; it then has the chosen name. */
  lemma SymbolListable(c: Class, m: seq<byte>, ch: Choice, k: nat)
    requires Like(c, m, ch) && Named(ch) && k < 3
    ensures EnvOk(c, EnvOf(c))
    ensures Listable(c, m, EnvOf(c), k) <==> SymOff(c, k) + 64 <= |m|
    ensures SymOff(c, k) + 64 > |m| ==> FailureOf(c, m, EnvOf(c), k) == EFAULT
    ensures SymOff(c, k) + 64 <= |m| ==>
              CStr(m, AddW(c, SymAt(c, m, SymOff(c, k)).name, 248)) == Some(NameOf(NameOff(ch, k)))
  {
    hide EhdrAt, PhdrAt, ShdrAt, SymAt, CStr, IdentOk, EntryOff, NameOf, SymbolIs, NameOff;
    SymbolOffset(c, k);
    NameKnown(ch, k);
    assert SymAt(c, m, SymOff(c, k)) == SymbolIs(ch, k);
    assert CStr(m, 248 + NameOff(ch, k)) == Some(NameOf(NameOff(ch, k)));
  }

  // ----- cut off behind the last symbol, or not -----

  /** With 64 bytes behind the last symbol's offset the image parses. */
  lemma LongSampleParses(c: Class, m: seq<byte>, ch: Choice)
    requires Like(c, m, ch) && Named(ch) && 376 <= |m|
    ensures Parse(m).code == Success
  {
    hide EhdrAt, PhdrAt, ShdrAt, SymAt, CStr, IdentOk, EhdrOk, Parse, ParseShdrs, ParseEnv, Listable, EntryOff, Like;
    Sections(c, m, ch);
    LikeFacts(c, m, ch);
    Wrappers(c, m, ch);
    SymbolListable(c, m, ch, 0);
    forall k: nat | EntryOff(0, Symtab(c).entsize, k) < Symtab(c).size ensures Listable(c, m, EnvOf(c), k) {
      SymbolOffset(c, k);
      SymbolListable(c, m, ch, k);
    }
    ParseSucceeds(m);
  }

  /** A 64-bit image cut off behind its last symbol is refused at the second, although all symbols lie in the file. */
  lemma ShortSampleRefused(m: seq<byte>, ch: Choice)
    requires Like(Class64, m, ch) && Named(ch) && |m| == 336
    ensures Parse(m).code == EFAULT
  {
    hide EhdrAt, PhdrAt, ShdrAt, SymAt, CStr, IdentOk, EhdrOk, Parse, ParseShdrs, ParseEnv, Listable, EntryOff, Like;
    hide SymLoop, FailureOf, ListMeans;
    Sections(Class64, m, ch);
    LikeFacts(Class64, m, ch);
    Wrappers(Class64, m, ch);
    SymbolListable(Class64, m, ch, 0);
    SymbolListable(Class64, m, ch, 1);
    SymbolOffset(Class64, 0);
    SymbolOffset(Class64, 1);
    FirstFailureDecides(Class64, m, EnvOf(Class64), 0, 0, 0, 0, 1);
    ParseParts(m);
  }

  /** Two files that differ only in 40 zero bytes at the end: the shorter one is refused. */
  lemma SymbolNearEndRefused() returns (short: seq<byte>, long: seq<byte>)
    ensures |short| == 336 && |long| == 376 && short == long[..336]
    ensures forall i :: 336 <= i < 376 ==> long[i] == 0
    ensures SmallBuffer(short) && Parse(short).code == EFAULT
    ensures SmallBuffer(long) && Parse(long).code == Success
  {
    hide Parse, Like, ByteAt;
    var ch := Choice(3, 9, 0);
    short, long := Sample(Class64, 336, ch), Sample(Class64, 376, ch);
    SampleIsLike(Class64, 336, ch);
    SampleIsLike(Class64, 376, ch);
    LikeFacts(Class64, short, ch);
    LikeFacts(Class64, long, ch);
    ShortSampleRefused(short, ch);
    LongSampleParses(Class64, long, ch);
    ZeroTail(ch);
  }

  lemma ZeroTail(ch: Choice)
    ensures forall i :: 336 <= i < 376 ==> ByteAt(Class64, ch, i) == 0
  {
  }

  // ----- what the parse finds -----

  /** The wrapper of symbol k. */
  function WrapperOf(c: Class, ch: Choice, k: nat): SymRef
    requires k < 3
  {
    SymRef(k, 120, if k == 0 then 0 else 4095 + k, SymOff(c, k), NameOf(NameOff(ch, k)))
  }

  /** The whole result. */
  lemma SampleParses(c: Class, m: seq<byte>, ch: Choice)
    requires Like(c, m, ch) && Named(ch) && 376 <= |m|
    ensures SmallBuffer(m)
    ensures Parse(m) == Parsed(Success, [PhdrRef(0, 64, 248)], [H0, H1(c)], None, Some(H1(c)),
                               [WrapperOf(c, ch, 0), WrapperOf(c, ch, 1), WrapperOf(c, ch, 2)])
  {
    hide EhdrAt, PhdrAt, ShdrAt, SymAt, CStr, IdentOk, EhdrOk, Parse, ParseShdrs, ParseEnv, EntryOff, Like, NameOf;
    hide SymLoop, ListMeans, NameOff, PhdrRefs, CountIs;
    LikeFacts(c, m, ch);
    LongSampleParses(c, m, ch);
    Sections(c, m, ch);
    Wrappers(c, m, ch);
    ParseParts(m);
    SymbolListable(c, m, ch, 0);
    SymbolTableMeaning(c, m, EnvOf(c));
    var syms := Parse(m).syms;
    ThreeSymbols(c, |syms|);
    forall k | 0 <= k < 3 ensures syms[k] == WrapperOf(c, ch, k) {
      SymbolFound(c, m, ch, syms, k);
    }
  }

  lemma ThreeSymbols(c: Class, n: nat)
    requires CountIs(n, 0, Symtab(c).entsize, Symtab(c).size)
    ensures n == 3
  {
    SymbolOffset(c, n);
    if n > 0 { SymbolOffset(c, n - 1); }
  }

  lemma SymbolFound(c: Class, m: seq<byte>, ch: Choice, syms: seq<SymRef>, k: nat)
    requires Like(c, m, ch) && Named(ch) && |syms| == 3 && k < 3 && 376 <= |m| && EnvOk(c, EnvOf(c))
    requires ListMeans(c, m, EnvOf(c), syms, 264, 0, 0)
    ensures syms[k] == WrapperOf(c, ch, k)
  {
    hide EhdrAt, PhdrAt, ShdrAt, SymAt, CStr, IdentOk, EntryOff, NameOf, NameOff, StringAt, SectionOf;
    SymbolOffset(c, k);
    SymbolListable(c, m, ch, k);
    assert MeansAt(c, m, EnvOf(c), syms, 264, 0, 0, k);
    assert SymAt(c, m, SymOff(c, k)) == SymbolIs(ch, k);
    CStrMeaning(m, AddW(c, SymAt(c, m, SymOff(c, k)).name, 248), syms[k].name);
    InFirstSection(c, if k == 0 then 0 else syms[k - 1].sh_offset);
  }

  lemma InFirstSection(c: Class, prev: nat)
    ensures SectionOf(ButLast([H0, H1(c)]), 0, prev) == 120
  {
    assert ButLast([H0, H1(c)]) == [H0];
  }

  // ----- both classes -----

  /** The 32-bit and the 64-bit image of a choice say the same, and so their parses correspond. */
  lemma SamplesCorrespond(ch: Choice)
    requires Named(ch)
    ensures var m, m' := Sample(Class32, 376, ch), Sample(Class64, 376, ch);
            && SmallBuffer(m) && SmallBuffer(m') && SameHeaders(m, m')
            && SameResult(m, m', 2, Parse(m), Parse(m'))
  {
    hide EhdrAt, PhdrAt, ShdrAt, SymAt, CStr, IdentOk, EhdrOk, Parse, ParseShdrs, ParseEnv, ByteAt, NameOf, EntryOff;
    hide SameTable, SameResult, Like;
    var m, m' := Sample(Class32, 376, ch), Sample(Class64, 376, ch);
    SampleIsLike(Class32, 376, ch);
    SampleIsLike(Class64, 376, ch);
    LikeFacts(Class32, m, ch);
    LikeFacts(Class64, m', ch);
    Sections(Class32, m, ch);
    Sections(Class64, m', ch);
    HeadersCorrespond(m, m', ch);
    SymbolsCorrespond(m, m', ch);
    SameParse(m, m');
  }

  lemma HeadersCorrespond(m: seq<byte>, m': seq<byte>, ch: Choice)
    requires Like(Class32, m, ch) && Like(Class64, m', ch)
    ensures SameHeaders(m, m') && EhdrAt(Class32, m).shnum == 2
  {
    hide EhdrAt, PhdrAt, ShdrAt, SymAt, CStr, IdentOk, EhdrOk, EntryOff, Known;
    Wrappers(Class32, m, ch);
    Wrappers(Class64, m', ch);
    var ps, ps' := PhdrRefs(Class32, m, 1), PhdrRefs(Class64, m', 1);
    var hs, hs' := ShdrRefs(Class32, m, 2), ShdrRefs(Class64, m', 2);
    assert ps[0] == PhdrRefAt(Class32, m, 0) && ps'[0] == PhdrRefAt(Class64, m', 0);
    assert hs[0] == ShdrRefAt(Class32, m, 0) && hs'[0] == ShdrRefAt(Class64, m', 0);
    assert hs[1] == ShdrRefAt(Class32, m, 1) && hs'[1] == ShdrRefAt(Class64, m', 1);
  }

  lemma SymbolsCorrespond(m: seq<byte>, m': seq<byte>, ch: Choice)
    requires Like(Class32, m, ch) && Like(Class64, m', ch) && Named(ch) && |m| == |m'| == 376
    ensures EnvOk(Class32, EnvOf(Class32)) && EnvOk(Class64, EnvOf(Class64))
    ensures SameTable(m, EnvOf(Class32), m', EnvOf(Class64))
  {
    hide EhdrAt, PhdrAt, ShdrAt, SymAt, CStr, IdentOk, EntryOff, NameOf, Like, Listable, SymbolIs, SameSymbol;
    SymbolListable(Class32, m, ch, 0);
    SymbolListable(Class64, m', ch, 0);
    forall k: nat
      ensures EntryOff(0, 16, k) < 48 <==> EntryOff(0, 24, k) < 72
      ensures EntryOff(0, 16, k) < 48 ==> SameSymbol(m, EnvOf(Class32), m', EnvOf(Class64), k)
    {
      SymbolOffset(Class32, k);
      SymbolOffset(Class64, k);
      if k < 3 { SymbolCorresponds(m, m', ch, k); }
    }
  }

  lemma SymbolCorresponds(m: seq<byte>, m': seq<byte>, ch: Choice, k: nat)
    requires Like(Class32, m, ch) && Like(Class64, m', ch) && Named(ch) && |m| == |m'| == 376 && k < 3
    requires EnvOk(Class32, EnvOf(Class32)) && EnvOk(Class64, EnvOf(Class64))
    ensures SameSymbol(m, EnvOf(Class32), m', EnvOf(Class64), k)
  {
    hide EhdrAt, PhdrAt, ShdrAt, SymAt, CStr, IdentOk, EntryOff, NameOf, Listable, Known;
    SymbolOffset(Class32, k);
    SymbolOffset(Class64, k);
    SymbolListable(Class32, m, ch, k);
    SymbolListable(Class64, m', ch, k);
    assert SymAt(Class32, m, SymOff(Class32, k)) == SymbolIs(ch, k) == SymAt(Class64, m', SymOff(Class64, k));
  }
}
