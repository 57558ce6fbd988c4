/**
 * What parsing a buffer yields, as a total function of its bytes.
 *
 * Outcome Undefined stands for the inputs on which the C code reads outside the
 * buffer or through a null string table, and for header tables with an entry cut off by
 * the end of the buffer, of which the C loops read only some fields; Diverges for the
 * endless symbol loop of a zero sh_entsize.  All sums are taken in the width the C code
 * uses.
 */
module ParseSpec {
  import opened Bytes
  import opened Layout

  datatype Code = Success | EFAULT | EINVAL | ENOSYS | MinusOne | Undefined | Diverges

  /** A parsed binary: the result code and the fields of elftool_t it leaves. */
  datatype Parsed = Parsed(code: Code, phdrs: seq<PhdrRef>, shdrs: seq<ShdrRef>,
                           shstrtab: Option<ShdrRef>, strtab: Option<ShdrRef>, syms: seq<SymRef>)

  /** Buffers shorter than half the file's address space. */
  predicate SmallBuffer(m: seq<byte>)
  {
    |m| < 0x8000_0000 || (|m| < 0x8000_0000_0000_0000 && m[4] != 1)
  }

  /** Unsigned addition in the width of the class. */
  function AddW(c: Class, a: nat, b: nat): (r: nat)
    requires a < c.Modulus() && b < c.Modulus()
    ensures r < c.Modulus()
  {
    if a + b < c.Modulus() then a + b else a + b - c.Modulus()
  }

  // ----- ELF header -----

  predicate MagicOk(m: seq<byte>)
  {
    EHDR_LEN <= |m| && m[0] == 0x7f && m[1] == 0x45 && m[2] == 0x4c && m[3] == 0x46 && m[4] in {1, 2}
  }

  predicate IdentOk(m: seq<byte>)
  {
    MagicOk(m) && m[5] in {1, 2} && m[6] <= 0x12
  }

  function ClassOf(m: seq<byte>): Class
    requires EHDR_LEN <= |m|
  {
    if m[4] == 1 then Class32 else Class64
  }

  function Product(ent: nat, num: nat): nat
  {
    ent * num
  }

  /** uint16_t * uint16_t is computed in int and then converted to the class width. */
  function TableBytes(c: Class, ent: nat, num: nat): (r: nat)
    requires ent < 0x1_0000 && num < 0x1_0000
    ensures r < c.Modulus()
  {
    ProductBound(ent, num, 0xffff);
    var p := Product(ent, num);
    if p < 0x8000_0000 then p else p + c.Modulus() - 0x1_0000_0000
  }

  lemma {:induction false} ProductBound(a: nat, b: nat, top: nat)
    requires a <= top && b <= top
    ensures Product(a, b) <= Product(top, top)
    decreases top - a + top - b
  {
    if a < top {
      ProductBound(a + 1, b, top);
      assert Product(a + 1, b) == Product(a, b) + b;
    } else if b < top {
      ProductBound(a, b + 1, top);
      assert Product(a, b + 1) == Product(a, b) + a;
    }
  }

  predicate TablesFit(c: Class, e: Ehdr, len: nat)
    requires e.phoff < c.Modulus() && e.shoff < c.Modulus()
    requires e.phentsize < 0x1_0000 && e.phnum < 0x1_0000 && e.shentsize < 0x1_0000 && e.shnum < 0x1_0000
  {
    && e.phoff <= len
    && e.shoff <= len
    && AddW(c, TableBytes(c, e.phentsize, e.phnum), e.phoff) <= len
    && AddW(c, TableBytes(c, e.shentsize, e.shnum), e.shoff) <= len
  }

  predicate EhdrOk(m: seq<byte>)
  {
    IdentOk(m) && TablesFit(ClassOf(m), EhdrAt(ClassOf(m), m), |m|)
  }

  lemma EhdrOkFacts(m: seq<byte>)
    requires EhdrOk(m) && SmallBuffer(m)
    ensures EHDR_LEN <= |m| < ClassOf(m).Modulus() / 2
    ensures MagicOk(m) && IdentOk(m)
  {
  }

  // ----- header tables -----

  /** How many leading entries of a table lie wholly inside the buffer. */
  function Readable(len: nat, base: nat, ent: nat, size: nat, num: nat): (r: nat)
    ensures r <= num
    ensures forall k :: 0 <= k < r ==> EntryOff(base, ent, k) + size <= len
    ensures r < num ==> EntryOff(base, ent, r) + size > len
  {
    if num == 0 then 0
    else
      var r := Readable(len, base, ent, size, num - 1);
      if r < num - 1 || EntryOff(base, ent, r) + size > len then r else num
  }

  lemma AllReadable(len: nat, base: nat, ent: nat, size: nat, num: nat)
    requires forall k :: 0 <= k < num ==> EntryOff(base, ent, k) + size <= len
    ensures Readable(len, base, ent, size, num) == num
  {
  }

  ghost predicate PhdrsIn(c: Class, m: seq<byte>, n: nat)
  {
    && EHDR_LEN <= |m|
    && var e := EhdrAt(c, m);
       forall k :: 0 <= k < n ==> EntryOff(e.phoff, e.phentsize, k) + c.PhdrSize() <= |m|
  }

  ghost predicate ShdrsIn(c: Class, m: seq<byte>, n: nat)
  {
    && EHDR_LEN <= |m|
    && var e := EhdrAt(c, m);
       forall k :: 0 <= k < n ==> EntryOff(e.shoff, e.shentsize, k) + c.ShdrSize() <= |m|
  }

  /** The wrapper of program header k. */
  ghost function PhdrRefAt(c: Class, m: seq<byte>, k: nat): PhdrRef
    requires PhdrsIn(c, m, k + 1)
  {
    var off := EntryOff(EhdrAt(c, m).phoff, EhdrAt(c, m).phentsize, k);
    PhdrRef(k, off, PhdrAt(c, m, off).offset)
  }

  /** The wrapper of section header k. */
  ghost function ShdrRefAt(c: Class, m: seq<byte>, k: nat): ShdrRef
    requires ShdrsIn(c, m, k + 1)
  {
    var off := EntryOff(EhdrAt(c, m).shoff, EhdrAt(c, m).shentsize, k);
    ShdrRef(k, off, ShdrAt(c, m, off).offset)
  }

  ghost function PhdrRefs(c: Class, m: seq<byte>, n: nat): (s: seq<PhdrRef>)
    requires PhdrsIn(c, m, n)
    ensures |s| == n
    ensures forall k :: 0 <= k < n ==> s[k] == PhdrRefAt(c, m, k)
  {
    seq(n, k requires 0 <= k < n => PhdrRefAt(c, m, k))
  }

  ghost function ShdrRefs(c: Class, m: seq<byte>, n: nat): (s: seq<ShdrRef>)
    requires ShdrsIn(c, m, n)
    ensures |s| == n
    ensures forall k :: 0 <= k < n ==> s[k] == ShdrRefAt(c, m, k)
  {
    seq(n, k requires 0 <= k < n => ShdrRefAt(c, m, k))
  }

  /** The number of leading program headers that lie wholly in the buffer. */
  ghost function ReadablePhdrs(c: Class, m: seq<byte>): (n: nat)
    requires EHDR_LEN <= |m|
    ensures PhdrsIn(c, m, n)
    ensures n <= EhdrAt(c, m).phnum
  {
    var e := EhdrAt(c, m);
    Readable(|m|, e.phoff, e.phentsize, c.PhdrSize(), e.phnum)
  }

  /** The number of leading section headers that lie wholly in the buffer. */
  ghost function ReadableShdrs(c: Class, m: seq<byte>): (n: nat)
    requires EHDR_LEN <= |m|
    ensures ShdrsIn(c, m, n)
    ensures n <= EhdrAt(c, m).shnum
  {
    var e := EhdrAt(c, m);
    Readable(|m|, e.shoff, e.shentsize, c.ShdrSize(), e.shnum)
  }

  // ----- choosing the symbol and string tables -----

  /** Every wrapper points at a section header inside the buffer. */
  predicate RefsIn(c: Class, m: seq<byte>, hs: seq<ShdrRef>)
  {
    forall i :: 0 <= i < |hs| ==> hs[i].sh_offset + c.ShdrSize() <= |m|
  }

  /** The last SHT_SYMTAB section of a list. */
  function LastSymtab(c: Class, m: seq<byte>, hs: seq<ShdrRef>): (r: Option<ShdrRef>)
    requires RefsIn(c, m, hs)
    ensures r.Some? ==> r.value in hs && ShdrAt(c, m, r.value.sh_offset).shtype == SHT_SYMTAB
    ensures r.None? ==> forall i :: 0 <= i < |hs| ==> ShdrAt(c, m, hs[i].sh_offset).shtype != SHT_SYMTAB
  {
    if hs == [] then None
    else
      var last := hs[|hs| - 1];
      if ShdrAt(c, m, last.sh_offset).shtype == SHT_SYMTAB then Some(last)
      else LastSymtab(c, m, hs[..|hs| - 1])
  }

  /** uint32_t converted to int. */
  function ToInt(x: nat): int
  {
    if x < 0x8000_0000 then x else x - 0x1_0000_0000
  }

  /** symtabstrndx: sh_link of the last SHT_SYMTAB section as an int, -1 without one. */
  function SymtabLink(c: Class, m: seq<byte>, hs: seq<ShdrRef>): int
    requires RefsIn(c, m, hs)
  {
    match LastSymtab(c, m, hs)
    case None => -1
    case Some(h) => ToInt(ShdrAt(c, m, h.sh_offset).link)
  }

  /** The last SHT_STRTAB section of a list whose index is x. */
  function FindStrtab(c: Class, m: seq<byte>, hs: seq<ShdrRef>, x: int): (r: Option<ShdrRef>)
    requires RefsIn(c, m, hs)
    ensures r.Some? ==> r.value in hs && r.value.idx == x && ShdrAt(c, m, r.value.sh_offset).shtype == SHT_STRTAB
  {
    if hs == [] then None
    else
      var last := hs[|hs| - 1];
      if ShdrAt(c, m, last.sh_offset).shtype == SHT_STRTAB && last.idx == x then Some(last)
      else FindStrtab(c, m, hs[..|hs| - 1], x)
  }

  lemma LastSymtabSnoc(c: Class, m: seq<byte>, hs: seq<ShdrRef>, h: ShdrRef)
    requires RefsIn(c, m, hs) && h.sh_offset + c.ShdrSize() <= |m|
    ensures RefsIn(c, m, hs + [h])
    ensures var symtab := ShdrAt(c, m, h.sh_offset).shtype == SHT_SYMTAB;
            && LastSymtab(c, m, hs + [h]) == (if symtab then Some(h) else LastSymtab(c, m, hs))
            && SymtabLink(c, m, hs + [h])
               == (if symtab then ToInt(ShdrAt(c, m, h.sh_offset).link) else SymtabLink(c, m, hs))
  {
    hide ShdrAt;
    assert (hs + [h])[..|hs|] == hs;
  }

  lemma FindStrtabNone(c: Class, m: seq<byte>, x: int)
    ensures FindStrtab(c, m, [], x) == None
  {
  }

  lemma FindStrtabSnoc(c: Class, m: seq<byte>, hs: seq<ShdrRef>, h: ShdrRef, x: int)
    requires RefsIn(c, m, hs) && h.sh_offset + c.ShdrSize() <= |m|
    ensures RefsIn(c, m, hs + [h])
    ensures FindStrtab(c, m, hs + [h], x)
            == if ShdrAt(c, m, h.sh_offset).shtype == SHT_STRTAB && h.idx == x then Some(h) else FindStrtab(c, m, hs, x)
  {
    assert (hs + [h])[..|hs|] == hs;
  }

  // ----- symbols -----

  /** What the symbol loop needs besides the buffer. */
  datatype SymEnv = SymEnv(tab: Shdr, strOff: Option<nat>, hs: seq<ShdrRef>)

  ghost predicate EnvOk(c: Class, env: SymEnv)
  {
    && env.tab.offset < c.Modulus() && env.tab.size < c.Modulus() && env.tab.entsize < c.Modulus()
    && (env.strOff.Some? ==> env.strOff.value < c.Modulus())
  }

  /** Header offset of the last section of hs with index x, prev when there is none. */
  function SectionOf(hs: seq<ShdrRef>, x: nat, prev: nat): nat
  {
    if hs == [] then prev
    else if hs[|hs| - 1].idx == x then hs[|hs| - 1].sh_offset
    else SectionOf(hs[..|hs| - 1], x, prev)
  }

  /** The sections the symbol loop compares with: all but the last. */
  function ButLast<T>(s: seq<T>): seq<T>
  {
    if s == [] then [] else s[..|s| - 1]
  }

  datatype SymStep = End | Fail(code: Code) | Entry(sym: SymRef)

  /** One round of the symbol loop at table position pos. */
  function SymStepAt(c: Class, m: seq<byte>, env: SymEnv, pos: nat, idx: nat, sh: nat): (r: SymStep)
    requires EnvOk(c, env) && pos < c.Modulus() && |m| < c.Modulus()
    ensures r.End? <==> pos >= env.tab.size
    ensures r.Fail? ==> r.code in {EFAULT, Undefined}
    ensures r.Entry? ==> AddW(c, pos, env.tab.offset) + c.SymSize() <= |m|
  {
    if pos >= env.tab.size then End
    else
      var off := AddW(c, pos, env.tab.offset);
      if AddW(Class64, off, 64) > |m| then Fail(EFAULT)
      else if off + c.SymSize() > |m| || env.strOff.None? then Fail(Undefined)
      else
        var y := SymAt(c, m, off);
        var nameOff := AddW(c, y.name, env.strOff.value);
        if nameOff > |m| then Fail(EFAULT)
        else
          match CStr(m, nameOff)
          case None => Fail(Undefined)
          case Some(name) => Entry(SymRef(idx, SectionOf(ButLast(env.hs), y.shndx, sh), y.value, off, name))
  }

  datatype SymList = SymList(code: Code, syms: seq<SymRef>)

  /** Distance to the end of the buffer in the direction the loop moves. */
  function SymMeasure(c: Class, len: nat, off: nat, ent: nat): nat
  {
    if off > len then 0
    else if ent < c.Modulus() / 2 then len - off + 1
    else off + 1
  }

  /** A round that reads an entry inside the buffer moves on in a fixed direction. */
  lemma SymMeasureDecreases(c: Class, len: nat, base: nat, ent: nat, pos: nat)
    requires base < c.Modulus() && 0 < ent < c.Modulus() && pos < c.Modulus() && len < c.Modulus() / 2
    requires AddW(c, pos, base) <= len
    ensures SymMeasure(c, len, AddW(c, AddW(c, pos, ent), base), ent) < SymMeasure(c, len, AddW(c, pos, base), ent)
  {
    assert AddW(c, AddW(c, pos, ent), base) == AddW(c, AddW(c, pos, base), ent);
  }

  /** The whole symbol loop from table position pos on. */
  function SymLoop(c: Class, m: seq<byte>, env: SymEnv, pos: nat, idx: nat, sh: nat): SymList
    requires EnvOk(c, env) && pos < c.Modulus() && |m| < c.Modulus() / 2
    decreases SymMeasure(c, |m|, AddW(c, pos, env.tab.offset), env.tab.entsize)
  {
    match SymStepAt(c, m, env, pos, idx, sh)
    case End => SymList(Success, [])
    case Fail(code) => SymList(code, [])
    case Entry(e) =>
      if env.tab.entsize == 0 then SymList(Diverges, [])
      else
        SymMeasureDecreases(c, |m|, env.tab.offset, env.tab.entsize, pos);
        var rest := SymLoop(c, m, env, AddW(c, pos, env.tab.entsize), (idx + 1) % 0x1_0000, e.sh_offset);
        SymList(rest.code, [e] + rest.syms)
  }

  // ----- the whole parse -----

  /** elftool_parse_shdr on a buffer whose header is accepted. */
  ghost function ParseShdrs(c: Class, m: seq<byte>): (r: Parsed)
    requires EHDR_LEN <= |m|
    ensures r.code in {Success, EFAULT, Undefined} && r.phdrs == [] && r.syms == []
    ensures RefsIn(c, m, r.shdrs)
    ensures r.strtab.Some? ==> r.strtab.value in r.shdrs
  {
    var e := EhdrAt(c, m);
    var n := ReadableShdrs(c, m);
    var hs := ShdrRefs(c, m, n);
    if n < e.shnum then
      Parsed(if EntryOff(e.shoff, e.shentsize, n) >= |m| then EFAULT else Undefined, [], hs, None, None, [])
    else if SymtabLink(c, m, hs) < 0 then
      Parsed(EFAULT, [], hs, None, None, [])
    else
      Parsed(Success, [], hs, FindStrtab(c, m, hs, e.shstrndx), FindStrtab(c, m, hs, SymtabLink(c, m, hs)), [])
  }

  /** The environment elftool_parse_syms sets up from the sections and the chosen string table. */
  function SymEnvOf(c: Class, m: seq<byte>, hs: seq<ShdrRef>, symtab: ShdrRef, strtab: Option<ShdrRef>): (env: SymEnv)
    requires symtab.sh_offset + c.ShdrSize() <= |m|
    requires strtab.Some? ==> strtab.value.sh_offset + c.ShdrSize() <= |m|
    ensures EnvOk(c, env)
  {
    SymEnv(ShdrAt(c, m, symtab.sh_offset),
           if strtab.None? then None else Some(ShdrAt(c, m, strtab.value.sh_offset).offset), hs)
  }

  /** elftool_parse_syms on the section list hs. */
  function ParseSyms(c: Class, m: seq<byte>, hs: seq<ShdrRef>, strtab: Option<ShdrRef>): SymList
    requires RefsIn(c, m, hs) && |m| < c.Modulus() / 2
    requires strtab.Some? ==> strtab.value.sh_offset + c.ShdrSize() <= |m|
  {
    match LastSymtab(c, m, hs)
    case None => SymList(EINVAL, [])
    case Some(symtab) => SymLoop(c, m, SymEnvOf(c, m, hs, symtab, strtab), 0, 0, 0)
  }

  /** elftool_parse on a fresh elftool_t. */
  ghost function Parse(m: seq<byte>): Parsed
    requires SmallBuffer(m)
  {
    if !EhdrOk(m) then Parsed(EFAULT, [], [], None, None, [])
    else
      var c := ClassOf(m);
      var e := EhdrAt(c, m);
      var n := ReadablePhdrs(c, m);
      var ps := PhdrRefs(c, m, n);
      if n < e.phnum then Parsed(Undefined, ps, [], None, None, [])
      else
        var sections := ParseShdrs(c, m).(phdrs := ps);
        if sections.code != Success then sections
        else
          var symbols := ParseSyms(c, m, sections.shdrs, sections.strtab);
          sections.(code := symbols.code, syms := symbols.syms)
  }
}
