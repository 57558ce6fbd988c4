/**
 * The 32-bit and the 64-bit parser agree: images with the same headers and symbols,
 * each in its own layout, give corresponding wrappers.
 */
module CrossWidth {
  import opened Bytes
  import opened Layout
  import opened ParseSpec
  import opened ParseFacts

  /** The two header tables say the same; file offsets of the tables may differ. */
  ghost predicate SameHeaders(m: seq<byte>, m': seq<byte>)
  {
    && EHDR_LEN <= |m| && EHDR_LEN <= |m'|
    && var e, e' := EhdrAt(Class32, m), EhdrAt(Class64, m');
    && e.phnum == e'.phnum && e.shnum == e'.shnum && e.shstrndx == e'.shstrndx
    && PhdrsIn(Class32, m, e.phnum) && PhdrsIn(Class64, m', e.phnum)
    && ShdrsIn(Class32, m, e.shnum) && ShdrsIn(Class64, m', e.shnum)
    && (forall k :: 0 <= k < e.phnum ==> PhdrRefAt(Class32, m, k).mem_offset == PhdrRefAt(Class64, m', k).mem_offset)
    && (forall k :: 0 <= k < e.shnum ==> SameSection(m, m', k))
  }

  /** Section header k has the same type, link and content offset. */
  ghost predicate SameSection(m: seq<byte>, m': seq<byte>, k: nat)
    requires ShdrsIn(Class32, m, k + 1) && ShdrsIn(Class64, m', k + 1)
  {
    var h := ShdrAt(Class32, m, ShdrRefAt(Class32, m, k).sh_offset);
    var h' := ShdrAt(Class64, m', ShdrRefAt(Class64, m', k).sh_offset);
    h.shtype == h'.shtype && h.link == h'.link && h.offset == h'.offset
  }

  /** Wrappers of the same section. */
  ghost predicate SameRef(r: Option<ShdrRef>, r': Option<ShdrRef>)
  {
    (r.Some? <==> r'.Some?) && (r.Some? ==> r.value.idx == r'.value.idx && r.value.mem_offset == r'.value.mem_offset)
  }

  lemma {:induction false} SameScans(m: seq<byte>, m': seq<byte>, n: nat, j: nat, x: int)
    requires ShdrsIn(Class32, m, n) && ShdrsIn(Class64, m', n) && j <= n
    requires forall k :: 0 <= k < n ==> SameSection(m, m', k)
    ensures var hs, hs' := ShdrRefs(Class32, m, n)[..j], ShdrRefs(Class64, m', n)[..j];
            && RefsIn(Class32, m, hs) && RefsIn(Class64, m', hs')
            && SameRef(LastSymtab(Class32, m, hs), LastSymtab(Class64, m', hs'))
            && SymtabLink(Class32, m, hs) == SymtabLink(Class64, m', hs')
            && SameRef(FindStrtab(Class32, m, hs, x), FindStrtab(Class64, m', hs', x))
  {
    hide EhdrAt, ShdrAt;
    var all, all' := ShdrRefs(Class32, m, n), ShdrRefs(Class64, m', n);
    assert forall k :: 0 <= k < n ==> all[k] == ShdrRefAt(Class32, m, k) && all'[k] == ShdrRefAt(Class64, m', k);
    assert RefsIn(Class32, m, all[..j]) && RefsIn(Class64, m', all'[..j]);
    if j > 0 {
      SameScans(m, m', n, j - 1, x);
      assert SameSection(m, m', j - 1);
      assert all[..j] == all[..j - 1] + [all[j - 1]] && all'[..j] == all'[..j - 1] + [all'[j - 1]];
      LastSymtabSnoc(Class32, m, all[..j - 1], all[j - 1]);
      LastSymtabSnoc(Class64, m', all'[..j - 1], all'[j - 1]);
      FindStrtabSnoc(Class32, m, all[..j - 1], all[j - 1], x);
      FindStrtabSnoc(Class64, m', all'[..j - 1], all'[j - 1], x);
    }
  }

  /** The same headers give the same section result and the same choice of string tables. */
  lemma SameSections(m: seq<byte>, m': seq<byte>)
    requires SameHeaders(m, m')
    ensures var p, p' := ParseShdrs(Class32, m), ParseShdrs(Class64, m');
            && p.code == p'.code
            && |p.shdrs| == |p'.shdrs|
            && (forall k :: 0 <= k < |p.shdrs| ==>
                  p.shdrs[k].idx == p'.shdrs[k].idx == k && p.shdrs[k].mem_offset == p'.shdrs[k].mem_offset)
            && SameRef(p.shstrtab, p'.shstrtab) && SameRef(p.strtab, p'.strtab)
  {
    hide EhdrAt, ShdrAt, Readable, LastSymtab, FindStrtab, SymtabLink;
    var e, e' := EhdrAt(Class32, m), EhdrAt(Class64, m');
    var n := e.shnum;
    AllReadable(|m|, e.shoff, e.shentsize, 40, n);
    AllReadable(|m'|, e'.shoff, e'.shentsize, 64, n);
    var hs, hs' := ShdrRefs(Class32, m, n), ShdrRefs(Class64, m', n);
    assert hs[..n] == hs && hs'[..n] == hs';
    SameScans(m, m', n, n, e.shstrndx);
    SameScans(m, m', n, n, SymtabLink(Class32, m, hs));
    forall k | 0 <= k < n
      ensures hs[k].idx == hs'[k].idx == k && hs[k].mem_offset == hs'[k].mem_offset
    {
      assert SameSection(m, m', k);
    }
  }

  // ----- symbols -----

  /**
   * The k-th symbols pass or fail the same checks, and a pair that passes has the same
   * name, value and section index.
   */
  ghost predicate SameSymbol(m: seq<byte>, env: SymEnv, m': seq<byte>, env': SymEnv, k: nat)
    requires EnvOk(Class32, env) && EnvOk(Class64, env')
  {
    && (Listable(Class32, m, env, k) <==> Listable(Class64, m', env', k))
    && if Listable(Class32, m, env, k) then
         var y := SymAt(Class32, m, EntryOff(env.tab.offset, env.tab.entsize, k));
         var y' := SymAt(Class64, m', EntryOff(env'.tab.offset, env'.tab.entsize, k));
         && y.value == y'.value && y.shndx == y'.shndx
         && CStr(m, AddW(Class32, y.name, env.strOff.value)) == CStr(m', AddW(Class64, y'.name, env'.strOff.value))
       else FailureOf(Class32, m, env, k) == FailureOf(Class64, m', env', k)
  }

  /** The two symbol tables have equally many entries, and these say the same. */
  ghost predicate SameTable(m: seq<byte>, env: SymEnv, m': seq<byte>, env': SymEnv)
    requires EnvOk(Class32, env) && EnvOk(Class64, env')
  {
    && env.tab.entsize < Class32.Modulus() / 2 && env'.tab.entsize < Class64.Modulus() / 2
    && (env.tab.entsize == 0 <==> env'.tab.entsize == 0)
    && forall k: nat ::
         && (EntryOff(0, env.tab.entsize, k) < env.tab.size <==> EntryOff(0, env'.tab.entsize, k) < env'.tab.size)
         && (EntryOff(0, env.tab.entsize, k) < env.tab.size ==> SameSymbol(m, env, m', env', k))
  }

  /** Header offsets of the same section of the two tables, or both still zero. */
  ghost predicate SameSectionOffset(m: seq<byte>, m': seq<byte>, n: nat, sh: nat, sh': nat)
    requires ShdrsIn(Class32, m, n) && ShdrsIn(Class64, m', n)
  {
    || (sh == 0 && sh' == 0)
    || exists x :: 0 <= x < n && sh == ShdrRefAt(Class32, m, x).sh_offset && sh' == ShdrRefAt(Class64, m', x).sh_offset
  }

  /** Wrappers of the same symbol. */
  ghost predicate SameSym(m: seq<byte>, m': seq<byte>, n: nat, s: SymRef, s': SymRef)
    requires ShdrsIn(Class32, m, n) && ShdrsIn(Class64, m', n)
  {
    && s.idx == s'.idx && s.mem_offset == s'.mem_offset && s.name == s'.name
    && SameSectionOffset(m, m', n, s.sh_offset, s'.sh_offset)
  }

  /** One round of the two symbol loops. */
  lemma SameStep(m: seq<byte>, env: SymEnv, pos: nat, sh: nat, m': seq<byte>, env': SymEnv, pos': nat, sh': nat,
                 n: nat, k: nat, idx: nat)
    requires EnvOk(Class32, env) && EnvOk(Class64, env') && SameTable(m, env, m', env')
    requires |m| < Class32.Modulus() / 2 && |m'| < Class64.Modulus() / 2
    requires ShdrsIn(Class32, m, n) && env.hs == ShdrRefs(Class32, m, n)
    requires ShdrsIn(Class64, m', n) && env'.hs == ShdrRefs(Class64, m', n)
    requires pos == EntryOff(0, env.tab.entsize, k) && pos + env.tab.offset < Class32.Modulus()
    requires pos' == EntryOff(0, env'.tab.entsize, k) && pos' + env'.tab.offset < Class64.Modulus()
    requires SameSectionOffset(m, m', n, sh, sh')
    ensures var r, r' := SymStepAt(Class32, m, env, pos, idx, sh), SymStepAt(Class64, m', env', pos', idx, sh');
            && (r.End? <==> r'.End?)
            && (r.Fail? ==> r'.Fail? && r.code == r'.code)
            && (r.Entry? ==>
                  && r'.Entry? && SameSym(m, m', n, r.sym, r'.sym)
                  && pos + env.tab.offset + 64 <= |m| && pos' + env'.tab.offset + 64 <= |m'|)
  {
    hide EhdrAt, ShdrAt, SymAt, CStr, SymStepAt, EntryOff, Listable, FailureOf;
    if pos < env.tab.size {
      assert SameSymbol(m, env, m', env', k);
      StepOutcome(Class32, m, env, pos, idx, sh, k);
      StepOutcome(Class64, m', env', pos', idx, sh', k);
      EntryOffAt(env.tab.offset, env.tab.entsize, k);
      EntryOffAt(env'.tab.offset, env'.tab.entsize, k);
      if Listable(Class32, m, env, k) && n > 0 {
        var x := SymAt(Class32, m, pos + env.tab.offset).shndx;
        SectionByIndex(Class32, m, n, n - 1, x, sh);
        SectionByIndex(Class64, m', n, n - 1, x, sh');
      }
    }
  }

  /** Symbol tables that say the same give the same result code and corresponding symbol lists. */
  lemma {:induction false} SameLoops(m: seq<byte>, env: SymEnv, pos: nat, sh: nat,
                                     m': seq<byte>, env': SymEnv, pos': nat, sh': nat, n: nat, k: nat, idx: nat)
    requires EnvOk(Class32, env) && EnvOk(Class64, env') && SameTable(m, env, m', env')
    requires |m| < Class32.Modulus() / 2 && |m'| < Class64.Modulus() / 2
    requires ShdrsIn(Class32, m, n) && env.hs == ShdrRefs(Class32, m, n)
    requires ShdrsIn(Class64, m', n) && env'.hs == ShdrRefs(Class64, m', n)
    requires pos == EntryOff(0, env.tab.entsize, k) && pos + env.tab.offset < Class32.Modulus()
    requires pos' == EntryOff(0, env'.tab.entsize, k) && pos' + env'.tab.offset < Class64.Modulus()
    requires SameSectionOffset(m, m', n, sh, sh')
    ensures var r, r' := SymLoop(Class32, m, env, pos, idx, sh), SymLoop(Class64, m', env', pos', idx, sh');
            && r.code == r'.code && |r.syms| == |r'.syms|
            && forall i :: 0 <= i < |r.syms| ==> SameSym(m, m', n, r.syms[i], r'.syms[i])
    decreases SymMeasure(Class32, |m|, AddW(Class32, pos, env.tab.offset), env.tab.entsize)
  {
    hide EhdrAt, ShdrAt, SymStepAt, EntryOff, SameSectionOffset, SameSymbol, ShdrRefs;
    var ent, ent' := env.tab.entsize, env'.tab.entsize;
    var r, r' := SymStepAt(Class32, m, env, pos, idx, sh), SymStepAt(Class64, m', env', pos', idx, sh');
    SameStep(m, env, pos, sh, m', env', pos', sh', n, k, idx);
    if r.Entry? && ent > 0 {
      SymMeasureDecreases(Class32, |m|, env.tab.offset, ent, pos);
      EntryOffStep(0, ent, k);
      EntryOffStep(0, ent', k);
      SameLoops(m, env, pos + ent, r.sym.sh_offset, m', env', pos' + ent', r'.sym.sh_offset,
                n, k + 1, (idx + 1) % 0x1_0000);
    }
  }

  // ----- the whole parse -----

  /** The parses of the two images: equal codes, corresponding lists and string tables. */
  ghost predicate SameResult(m: seq<byte>, m': seq<byte>, n: nat, p: Parsed, p': Parsed)
    requires ShdrsIn(Class32, m, n) && ShdrsIn(Class64, m', n)
  {
    && p.code == p'.code
    && |p.phdrs| == |p'.phdrs| && |p.shdrs| == |p'.shdrs| && |p.syms| == |p'.syms|
    && (forall k :: 0 <= k < |p.phdrs| ==>
          p.phdrs[k].idx == p'.phdrs[k].idx == k && p.phdrs[k].mem_offset == p'.phdrs[k].mem_offset)
    && (forall k :: 0 <= k < |p.shdrs| ==>
          p.shdrs[k].idx == p'.shdrs[k].idx == k && p.shdrs[k].mem_offset == p'.shdrs[k].mem_offset)
    && (forall k :: 0 <= k < |p.syms| ==> SameSym(m, m', n, p.syms[k], p'.syms[k]))
    && SameRef(p.shstrtab, p'.shstrtab) && SameRef(p.strtab, p'.strtab)
  }

  /**
   * A 32-bit and a 64-bit image with accepted headers that say the same about segments,
   * sections and symbols parse to corresponding results, successful or not.
   */
  lemma SameParse(m: seq<byte>, m': seq<byte>)
    requires SmallBuffer(m) && EhdrOk(m) && ClassOf(m) == Class32
    requires SmallBuffer(m') && EhdrOk(m') && ClassOf(m') == Class64
    requires SameHeaders(m, m')
    requires ParseShdrs(Class32, m).code == Success && ParseShdrs(Class64, m').code == Success ==>
               SameTable(m, ParseEnv(Class32, m), m', ParseEnv(Class64, m'))
    ensures SameResult(m, m', EhdrAt(Class32, m).shnum, Parse(m), Parse(m'))
  {
    hide EhdrAt, ShdrAt, PhdrAt, Readable, ParseShdrs, Parse, ParseEnv, SymLoop, SameTable, SameSym, SameRef, TablesFit;
    hide SameSection, EntryOff;
    EhdrOkFacts(m);
    EhdrOkFacts(m');
    var e, e' := EhdrAt(Class32, m), EhdrAt(Class64, m');
    AllReadable(|m|, e.phoff, e.phentsize, 32, e.phnum);
    AllReadable(|m'|, e'.phoff, e'.phentsize, 56, e.phnum);
    SameSections(m, m');
    ParseParts(m);
    ParseParts(m');
    if ParseShdrs(Class32, m).code == Success {
      SymtabLoops(m, m');
    }
  }

  lemma SymtabLoops(m: seq<byte>, m': seq<byte>)
    requires SameHeaders(m, m') && |m| < Class32.Modulus() / 2 && |m'| < Class64.Modulus() / 2
    requires ParseShdrs(Class32, m).code == Success && ParseShdrs(Class64, m').code == Success
    requires SameTable(m, ParseEnv(Class32, m), m', ParseEnv(Class64, m'))
    ensures var n := EhdrAt(Class32, m).shnum;
            var r := SymLoop(Class32, m, ParseEnv(Class32, m), 0, 0, 0);
            var r' := SymLoop(Class64, m', ParseEnv(Class64, m'), 0, 0, 0);
            && r.code == r'.code && |r.syms| == |r'.syms|
            && forall i :: 0 <= i < |r.syms| ==> SameSym(m, m', n, r.syms[i], r'.syms[i])
  {
    hide EhdrAt, ShdrAt, PhdrAt, SameTable, SameSym, SymLoop, ParseEnv;
    var env, env' := ParseEnv(Class32, m), ParseEnv(Class64, m');
    FirstOffset(env.tab.entsize);
    FirstOffset(env'.tab.entsize);
    SameLoops(m, env, 0, 0, m', env', 0, 0, EhdrAt(Class32, m).shnum, 0, 0);
  }
}
