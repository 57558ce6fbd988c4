/** Inject, write, parse again. */
module InjectWrite {
  import opened Bytes
  import opened Layout
  import opened ParseSpec
  import opened ParseFrame
  import opened WriteSpec
  import opened WriteFacts
  import opened InjectSpec
  import opened Loader
  import opened InjectFacts

  ghost predicate Disjoint(lo: nat, hi: nat, lo': nat, hi': nat)
  {
    hi <= lo' || hi' <= lo
  }

  /** The header slot overlaps no section header, no symbol entry and no symbol name. */
  ghost predicate SlotClear(m: seq<byte>, slot: nat, p: Parsed)
    requires EHDR_LEN <= |m|
  {
    && var e := EhdrAt(Class64, m);
    && (forall k :: 0 <= k < e.shnum ==>
          Disjoint(slot, slot + 56, EntryOff(e.shoff, e.shentsize, k), EntryOff(e.shoff, e.shentsize, k) + 64))
    && (p.syms != [] ==>
          && p.strtab.Some? && p.strtab.value.sh_offset + 64 <= |m|
          && forall i {:trigger p.syms[i]} :: 0 <= i < |p.syms| ==>
               var s := p.syms[i];
               && s.sym_offset + 24 <= |m|
               && Disjoint(slot, slot + 56, s.sym_offset, s.sym_offset + 24)
               && var o := AddW(Class64, SymAt(Class64, m, s.sym_offset).name,
                                ShdrAt(Class64, m, p.strtab.value.sh_offset).offset);
               && o + |s.name| + 1 <= |m|
               && Disjoint(slot, slot + 56, o, o + |s.name| + 1))
  }

  lemma ClearRange(m: seq<byte>, m': seq<byte>, code: seq<byte>, slot: nat, va: nat, lo: nat, hi: nat)
    requires Injected(m, m', code, slot, va) && hi <= |m| && Disjoint(slot, slot + 56, lo, hi)
    ensures Agree(m, m', lo, hi)
  {
    LengthGrows(m, m', code, slot, va);
  }

  /** The injected buffer parses like the old one, but for the rewritten program header. */
  lemma InjectedParses(m: seq<byte>, ps: seq<PhdrRef>, code: seq<byte>, m': seq<byte>, ps': seq<PhdrRef>)
    requires SmallBuffer(m) && SmallBuffer(m') && Parse(m).code == Success && ClassOf(m) == Class64
    requires Step(m, ps, code, m', ps') && FirstNote(m, ps).Some?
    requires SlotClear(m, SlotOff(m, Victim(m, ps)), Parse(m))
    ensures var s := Victim(m, ps);
            && s < |Parse(m).phdrs|
            && ClassOf(m') == Class64
            && Parse(m') == Parse(m).(phdrs := Parse(m).phdrs[s := PhdrRef(s, SlotOff(m, s), PageUp(|m|))])
    ensures ShdrsAgree(Class64, m, m')
  {
    hide EhdrAt, PhdrAt, ShdrAt, SymAt, Readable, ParseShdrs, ParseSyms, TablesFit, FirstNote, HighestLoad;
    hide Injected, Outcome, Room, LoadsOk, ListOk;
    EhdrOkFacts(m);
    StepFacts(m, ps, code, m', ps');
    var s, va, p := Victim(m, ps), Target(m, ps), Parse(m);
    var slot := SlotOff(m, s);
    hide Step;
    LengthGrows(m, m', code, slot, va);
    ClearRange(m, m', code, slot, va, 0, EHDR_LEN);
    var e := EhdrAt(Class64, m);
    ShdrsInside(m);
    forall k | 0 <= k < e.shnum
      ensures Agree(m, m', EntryOff(e.shoff, e.shentsize, k), EntryOff(e.shoff, e.shentsize, k) + 64)
    {
      ClearRange(m, m', code, slot, va, EntryOff(e.shoff, e.shentsize, k), EntryOff(e.shoff, e.shentsize, k) + 64);
    }
    SymbolsClear(m, m', code, slot, va, p);
    ParseDependsOn(m, m');
    SlotsAfter(m, m', code, s, va);
    TableAfter(m, m', s, PageUp(|m|));
  }

  lemma ShdrsInside(m: seq<byte>)
    requires SmallBuffer(m) && Parse(m).code == Success
    ensures EHDR_LEN <= |m| && ShdrsIn(ClassOf(m), m, EhdrAt(ClassOf(m), m).shnum)
  {
    hide EhdrAt, ShdrAt, Readable, ParseSyms, TablesFit, SymtabLink, FindStrtab;
  }

  lemma SymbolsClear(m: seq<byte>, m': seq<byte>, code: seq<byte>, slot: nat, va: nat, p: Parsed)
    requires EHDR_LEN <= |m| && Injected(m, m', code, slot, va) && SlotClear(m, slot, p)
    ensures SymsKept(Class64, m, m', p)
  {
    hide EhdrAt, ShdrAt, SymAt, Injected;
    forall i | 0 <= i < |p.syms|
      ensures SymKept(Class64, m, m', ShdrAt(Class64, m, p.strtab.value.sh_offset).offset, p.syms[i])
    {
      var y := p.syms[i];
      ClearRange(m, m', code, slot, va, y.sym_offset, y.sym_offset + 24);
      var o := AddW(Class64, SymAt(Class64, m, y.sym_offset).name, ShdrAt(Class64, m, p.strtab.value.sh_offset).offset);
      ClearRange(m, m', code, slot, va, o, o + |y.name| + 1);
    }
  }

  lemma TableAfter(m: seq<byte>, m': seq<byte>, s: nat, offset: nat)
    requires TableIn(m) && TableIn(m') && EhdrAt(Class64, m') == EhdrAt(Class64, m) && s < Phnum(m)
    requires forall k :: 0 <= k < Phnum(m) && k != s ==> Slot(m', k) == Slot(m, k)
    requires Slot(m', s).offset == offset
    ensures var n := Phnum(m);
            && PhdrsIn(Class64, m, n) && PhdrsIn(Class64, m', n)
            && PhdrRefs(Class64, m', n) == PhdrRefs(Class64, m, n)[s := PhdrRef(s, SlotOff(m, s), offset)]
  {
    hide EhdrAt, PhdrAt;
    var n := Phnum(m);
    forall k | 0 <= k < n
      ensures EntryOff(EhdrAt(Class64, m).phoff, EhdrAt(Class64, m).phentsize, k) == SlotOff(m, k)
    {
    }
    forall k | 0 <= k < n
      ensures PhdrRefs(Class64, m', n)[k] == PhdrRefs(Class64, m, n)[s := PhdrRef(s, SlotOff(m, s), offset)][k]
    {
      assert Slot(m', k) == PhdrAt(Class64, m', SlotOff(m, k));
      assert PhdrRefs(Class64, m', n)[k] == PhdrRefAt(Class64, m', k);
      assert PhdrRefs(Class64, m, n)[k] == PhdrRefAt(Class64, m, k);
    }
  }

  // ----- the writer's preconditions after an injection -----

  /** Header of a wrapper after the injection: the new segment on the slot, the old header elsewhere. */
  lemma WrapperAfter(m: seq<byte>, ps: seq<PhdrRef>, code: seq<byte>, m': seq<byte>, ps': seq<PhdrRef>, i: nat)
    requires Step(m, ps, code, m', ps') && i < |ps'|
    ensures FirstNote(m, ps).Some? && |ps'| == |ps| + 1
    ensures ps'[i].p_offset + 56 <= |m'|
    ensures i < |ps| ==> ps'[i] == ps[i] && ps[i].p_offset + 56 <= |m|
    ensures i == |ps| ==> ps'[i].p_offset == SlotOff(m, Victim(m, ps)) && ps'[i].mem_offset == PageUp(|m|)
    ensures PhdrAt(Class64, m', ps'[i].p_offset)
            == if ps'[i].p_offset == SlotOff(m, Victim(m, ps)) then NewSegment(PageUp(|m|), Target(m, ps), |code|)
               else PhdrAt(Class64, m, ps[i].p_offset)
  {
    hide EhdrAt, PhdrAt, HighestLoad, FirstNote, LoadsOk, Injected;
    StepFacts(m, ps, code, m', ps');
    ListAfter(m, ps, code, m', ps');
    var s := Victim(m, ps);
    SlotsAfter(m, m', code, s, Target(m, ps));
    hide Step, Room, Outcome;
    var k := IndexOf(m', ps'[i]);
    assert PhdrAt(Class64, m', ps'[i].p_offset) == Slot(m', k);
  }

  /** The appended wrapper is the fresh alias of every stale one. */
  lemma CoherentAfter(m: seq<byte>, ps: seq<PhdrRef>, code: seq<byte>, m': seq<byte>, ps': seq<PhdrRef>,
                      hs: seq<ShdrRef>)
    requires Step(m, ps, code, m', ps') && Coherent(Class64, m, ps, hs) && ShdrsAgree(Class64, m, m')
    ensures Coherent(Class64, m', ps', hs)
  {
    hide EhdrAt, PhdrAt, ShdrAt, HighestLoad, FirstNote, LoadsOk, Injected, Outcome, Room;
    StepFacts(m, ps, code, m', ps');
    ListAfter(m, ps, code, m', ps');
    var s := Victim(m, ps);
    SlotsAfter(m, m', code, s, Target(m, ps));
    hide Step;
    var e := EhdrAt(Class64, m);
    forall k | 0 <= k < e.shnum
      ensures ShdrsIn(Class64, m', k + 1) && ShdrRefAt(Class64, m', k) == ShdrRefAt(Class64, m, k)
    {
      ShdrFrame(Class64, m, m', EntryOff(e.shoff, e.shentsize, k));
    }
    assert hs == ShdrRefs(Class64, m', e.shnum);
    forall k | 0 <= k < |ps'| ensures FreshAlias(Class64, m', ps', k) {
      WrapperAfter(m, ps, code, m', ps', k);
      if ps'[k].p_offset == SlotOff(m, s) {
        WrapperAfter(m, ps, code, m', ps', |ps|);
      } else {
        assert FreshAlias(Class64, m, ps, k);
        var j :| k <= j < |ps| && ps[j].p_offset == ps[k].p_offset
                 && ps[j].mem_offset == PhdrAt(Class64, m, ps[j].p_offset).offset;
        WrapperAfter(m, ps, code, m', ps', j);
      }
    }
  }

  /** In particular the stale wrapper's content write reads inside the grown buffer. */
  lemma WriterSafeAfter(m: seq<byte>, ps: seq<PhdrRef>, code: seq<byte>, m': seq<byte>, ps': seq<PhdrRef>,
                        hs: seq<ShdrRef>)
    requires Step(m, ps, code, m', ps') && WriterSafe(Class64, m, ps, hs)
    requires Coherent(Class64, m, ps, hs) && ShdrsAgree(Class64, m, m')
    ensures WriterSafe(Class64, m', ps', hs)
  {
    hide EhdrAt, PhdrAt, ShdrAt, HighestLoad, FirstNote, LoadsOk, Injected, Outcome, Room;
    StepFacts(m, ps, code, m', ps');
    ListAfter(m, ps, code, m', ps');
    var s := Victim(m, ps);
    SlotsAfter(m, m', code, s, Target(m, ps));
    LengthGrows(m, m', code, SlotOff(m, s), Target(m, ps));
    PageUpMeaning(|m|);
    hide Step, Ready;
    var e := EhdrAt(Class64, m);
    forall k | 0 <= k < |hs|
      ensures hs[k].sh_offset + 64 <= |m'|
      ensures ShdrAt(Class64, m', hs[k].sh_offset) == ShdrAt(Class64, m, hs[k].sh_offset)
    {
      assert hs[k] == ShdrRefAt(Class64, m, k);
      ShdrFrame(Class64, m, m', EntryOff(e.shoff, e.shentsize, k));
    }
    var old1, old2 := PhdrTableWrites(Class64, m, ps), ShdrTableWrites(Class64, m, hs);
    var old3, old4 := SectionWrites(Class64, m, hs), SegmentWrites(Class64, m, ps);
    var cs1, cs2 := PhdrTableWrites(Class64, m', ps'), ShdrTableWrites(Class64, m', hs);
    var cs3, cs4 := SectionWrites(Class64, m', hs), SegmentWrites(Class64, m', ps');
    assert forall k :: 0 <= k < |hs| ==> cs2[k] == old2[k] && cs3[k] == old3[k];
    forall k | 0 <= k < |ps'| ensures cs1[k].src + cs1[k].len <= |m'| && cs4[k].src + cs4[k].len <= |m'| {
      WrapperAfter(m, ps, code, m', ps', k);
      if k < |ps| {
        assert old1[k].src + old1[k].len <= |m| && old4[k].src + old4[k].len <= |m|;
      }
    }
  }

  // ----- the header bytes after an injection -----

  /** A section, the section header table, or a segment other than those on the slot covers byte i. */
  ghost predicate KeptElsewhere(m: seq<byte>, ps: seq<PhdrRef>, hs: seq<ShdrRef>, slot: nat, i: nat)
    requires WriterSafe(Class64, m, ps, hs)
  {
    || CoveredBy(ShdrTableWrites(Class64, m, hs), i)
    || CoveredBy(SectionWrites(Class64, m, hs), i)
    || exists k :: 0 <= k < |ps| && ps[k].p_offset != slot && Covers(SegmentWrites(Class64, m, ps)[k], i)
  }

  /** A header byte is kept after the injection exactly when something else than the rewritten segment covers it. */
  lemma KeptAfter(m: seq<byte>, ps: seq<PhdrRef>, code: seq<byte>, m': seq<byte>, ps': seq<PhdrRef>,
                  hs: seq<ShdrRef>, i: nat)
    requires Step(m, ps, code, m', ps') && WriterSafe(Class64, m, ps, hs) && WriterSafe(Class64, m', ps', hs)
    requires Coherent(Class64, m, ps, hs) && ShdrsAgree(Class64, m, m') && i < EHDR_LEN
    ensures FirstNote(m, ps).Some?
    ensures Kept(Class64, m', ps', hs, i) <==> KeptElsewhere(m, ps, hs, SlotOff(m, Victim(m, ps)), i)
  {
    hide EhdrAt, PhdrAt, ShdrAt, HighestLoad, FirstNote, LoadsOk, Injected, Outcome, Room, PageUp;
    StepFacts(m, ps, code, m', ps');
    var s := Victim(m, ps);
    SlotsAfter(m, m', code, s, Target(m, ps));
    hide Step, Ready;
    assert !InPhdrTable(Class64, m', i);
    SectionWritesAfter(m, m', ps, hs);
    var old4, cs4 := SegmentWrites(Class64, m, ps), SegmentWrites(Class64, m', ps');
    PageUpMeaning(|m|);
    forall k | 0 <= k < |ps'|
      ensures Covers(cs4[k], i) <==> k < |ps| && ps[k].p_offset != SlotOff(m, s) && Covers(old4[k], i)
    {
      WrapperAfter(m, ps, code, m', ps', k);
    }
  }

  lemma SectionWritesAfter(m: seq<byte>, m': seq<byte>, ps: seq<PhdrRef>, hs: seq<ShdrRef>)
    requires RefsIn(Class64, m, hs) && RefsIn(Class64, m', hs) && Coherent(Class64, m, ps, hs)
    requires EHDR_LEN <= |m'| && EhdrAt(Class64, m') == EhdrAt(Class64, m) && ShdrsAgree(Class64, m, m')
    ensures ShdrTableWrites(Class64, m', hs) == ShdrTableWrites(Class64, m, hs)
    ensures SectionWrites(Class64, m', hs) == SectionWrites(Class64, m, hs)
  {
    hide EhdrAt, PhdrAt, ShdrAt;
    var e := EhdrAt(Class64, m);
    forall k | 0 <= k < |hs|
      ensures ShdrAt(Class64, m', hs[k].sh_offset) == ShdrAt(Class64, m, hs[k].sh_offset)
    {
      assert hs[k] == ShdrRefAt(Class64, m, k);
      ShdrFrame(Class64, m, m', EntryOff(e.shoff, e.shentsize, k));
    }
    assert forall k :: 0 <= k < |hs| ==>
             SectionWrites(Class64, m', hs)[k] == SectionWrites(Class64, m, hs)[k];
    assert forall k :: 0 <= k < |hs| ==>
             ShdrTableWrites(Class64, m', hs)[k] == ShdrTableWrites(Class64, m, hs)[k];
  }

  // ----- binaries that can be written and parsed back -----

  /** A parsed 64-bit binary with a coherent list that the writer can write. */
  ghost predicate Writable(m: seq<byte>, ps: seq<PhdrRef>)
  {
    && SmallBuffer(m) && Parse(m).code == Success && EHDR_LEN <= |m| && ClassOf(m) == Class64
    && FullEntries(Class64, m)
    && WriterSafe(Class64, m, ps, Parse(m).shdrs) && Coherent(Class64, m, ps, Parse(m).shdrs)
  }

  lemma InSectionsAfter(m: seq<byte>, m': seq<byte>, p: Parsed)
    requires EHDR_LEN <= |m| && ShdrsAgree(Class64, m, m') && SymsKept(Class64, m, m', p)
    requires ShdrsIn(Class64, m, EhdrAt(Class64, m).shnum) && p.shdrs == ShdrRefs(Class64, m, EhdrAt(Class64, m).shnum)
    requires p.strtab.Some? ==> p.strtab.value in p.shdrs
    requires RefsIn(Class64, m, p.shdrs) && SymbolsInSections(Class64, m, p)
    ensures RefsIn(Class64, m', p.shdrs) && SymbolsInSections(Class64, m', p)
  {
    hide EhdrAt, ShdrAt, SymAt;
    var e := EhdrAt(Class64, m);
    forall k | 0 <= k < |p.shdrs|
      ensures p.shdrs[k].sh_offset + 64 <= |m'|
      ensures ShdrAt(Class64, m', p.shdrs[k].sh_offset) == ShdrAt(Class64, m, p.shdrs[k].sh_offset)
    {
      assert p.shdrs[k] == ShdrRefAt(Class64, m, k);
      ShdrFrame(Class64, m, m', EntryOff(e.shoff, e.shentsize, k));
    }
    forall i | 0 <= i < |p.syms|
      ensures var s := p.syms[i];
              && s.sym_offset + 24 <= |m'|
              && InsideSection(Class64, m', p.shdrs, s.sym_offset, s.sym_offset + 24)
              && var o := AddW(Class64, SymAt(Class64, m', s.sym_offset).name,
                               ShdrAt(Class64, m', p.strtab.value.sh_offset).offset);
                 InsideSection(Class64, m', p.shdrs, o, o + |s.name| + 1)
    {
      var s := p.syms[i];
      assert SymKept(Class64, m, m', ShdrAt(Class64, m, p.strtab.value.sh_offset).offset, s);
      SymFrame(Class64, m, m', s.sym_offset);
    }
  }

  /** The parse result after an injection. */
  ghost function ParseAfter(m: seq<byte>, ps: seq<PhdrRef>): Parsed
    requires Writable(m, ps) && Ready(m, ps) && FirstNote(m, ps).Some? && Victim(m, ps) < |Parse(m).phdrs|
  {
    var p, s := Parse(m), Victim(m, ps);
    p.(phdrs := p.phdrs[s := PhdrRef(s, SlotOff(m, s), PageUp(|m|))])
  }

  /** An injection keeps a binary writable, and its parse but for one program header. */
  lemma StaysWritable(m: seq<byte>, ps: seq<PhdrRef>, code: seq<byte>, m': seq<byte>, ps': seq<PhdrRef>)
    requires Writable(m, ps) && Step(m, ps, code, m', ps') && SmallBuffer(m') && FirstNote(m, ps).Some?
    requires SlotClear(m, SlotOff(m, Victim(m, ps)), Parse(m))
    ensures Writable(m', ps') && Victim(m, ps) < |Parse(m).phdrs| && Parse(m') == ParseAfter(m, ps)
    ensures ShdrsAgree(Class64, m, m') && SymsKept(Class64, m, m', Parse(m))
  {
    hide EhdrAt, PhdrAt, ShdrAt, SymAt, Parse, FirstNote, HighestLoad, Outcome, Room, LoadsOk, ListOk, SlotClear;
    hide WriterSafe, Coherent, Injected, EhdrOk, IdentOk, SymsKept;
    var p, s := Parse(m), Victim(m, ps);
    StepFacts(m, ps, code, m', ps');
    InjectedParses(m, ps, code, m', ps');
    SymbolsClear(m, m', code, SlotOff(m, s), Target(m, ps), p);
    CoherentAfter(m, ps, code, m', ps', p.shdrs);
    WriterSafeAfter(m, ps, code, m', ps', p.shdrs);
    SectionsOfParsed(m);
    SlotsAfter(m, m', code, s, Target(m, ps));
  }

  /** An injection keeps the symbols in the sections. */
  lemma SymbolsStayInSections(m: seq<byte>, ps: seq<PhdrRef>, code: seq<byte>, m': seq<byte>, ps': seq<PhdrRef>)
    requires Writable(m, ps) && Step(m, ps, code, m', ps') && SmallBuffer(m') && FirstNote(m, ps).Some?
    requires SlotClear(m, SlotOff(m, Victim(m, ps)), Parse(m))
    requires RefsIn(Class64, m, Parse(m).shdrs) && SymbolsInSections(Class64, m, Parse(m))
    ensures RefsIn(Class64, m', Parse(m').shdrs) && SymbolsInSections(Class64, m', Parse(m'))
  {
    hide EhdrAt, PhdrAt, ShdrAt, SymAt, Parse, FirstNote, HighestLoad, Outcome, Room, LoadsOk, ListOk, SlotClear;
    hide WriterSafe, Coherent, Injected, SymsKept, Step, SymbolsInSections;
    StaysWritable(m, ps, code, m', ps');
    SectionsOfParsed(m);
    InSectionsAfter(m, m', Parse(m));
    SameSymbols(m', Parse(m), Parse(m'));
  }

  lemma SectionsOfParsed(m: seq<byte>)
    requires SmallBuffer(m) && Parse(m).code == Success
    ensures EHDR_LEN <= |m| && ShdrsIn(ClassOf(m), m, EhdrAt(ClassOf(m), m).shnum)
    ensures Parse(m).shdrs == ShdrRefs(ClassOf(m), m, EhdrAt(ClassOf(m), m).shnum)
    ensures RefsIn(ClassOf(m), m, Parse(m).shdrs)
    ensures Parse(m).strtab.Some? ==> Parse(m).strtab.value in Parse(m).shdrs
  {
    hide EhdrAt, ShdrAt, Readable, ParseSyms, TablesFit, SymtabLink, FindStrtab;
    EhdrOfParsed(m);
  }

  lemma SameSymbols(m: seq<byte>, p: Parsed, p': Parsed)
    requires RefsIn(Class64, m, p.shdrs) && SymbolsInSections(Class64, m, p)
    requires p'.strtab == p.strtab && p'.syms == p.syms && p'.shdrs == p.shdrs
    ensures SymbolsInSections(Class64, m, p')
  {
  }

  /**
   * Write a writable binary and parse the output: when the symbols' bytes survive, the same
   * result exactly when the header survives.
   */
  lemma WritableRoundTrip(m: seq<byte>, ps: seq<PhdrRef>)
    requires Writable(m, ps) && TableIn(m) && OutputFits(m, ps)
    ensures var hs := Parse(m).shdrs; var f := Written(Class64, m, ps, hs);
            && SmallBuffer(f)
            && (SymbolsSurvive(Class64, m, ps, hs, Parse(m)) ==>
                  (Parse(f) == Parse(m) <==> HeaderSurvives(Class64, m, ps, hs)))
            && (IdentificationLost(Class64, m, ps, hs) ==> Parse(f).code == EFAULT)
  {
    hide EhdrAt, Parse, Written, WriterSafe, Coherent, FullEntries, SymbolsSurvive, OutputFits, EhdrOk, IdentOk;
    hide HeaderSurvives, IdentificationLost;
    TableBehindHeader(m, ps);
    EhdrOfParsed(m);
    OutputSmall(m, ps, Parse(m).shdrs);
    if SymbolsSurvive(Class64, m, ps, Parse(m).shdrs, Parse(m)) {
      WriteThenParse(m, ps, Parse(m).shdrs);
    }
    if IdentificationLost(Class64, m, ps, Parse(m).shdrs) {
      LostHeaderRejected(m, ps, Parse(m).shdrs);
    }
  }

  lemma TableBehindHeader(m: seq<byte>, ps: seq<PhdrRef>)
    requires TableIn(m)
    ensures HeaderClear(Class64, m, ps)
  {
    hide EhdrAt;
  }

  // ----- inject, write, parse -----

  /** The content of a fresh wrapper reaches the file. */
  lemma SegmentInFile(m: seq<byte>, ps: seq<PhdrRef>, hs: seq<ShdrRef>, k: nat)
    requires WriterSafe(Class64, m, ps, hs) && Coherent(Class64, m, ps, hs) && k < |ps|
    requires var w := SegmentWrites(Class64, m, ps)[k]; w.src == w.dst && 0 < w.len
    ensures var w := SegmentWrites(Class64, m, ps)[k]; var f := Written(Class64, m, ps, hs);
            && w.src + w.len <= |m| <= |f|
            && f[w.src..w.src + w.len] == m[w.src..w.src + w.len]
  {
    hide EhdrAt, PhdrAt, ShdrAt, Written, Coherent, InExtraSlots, InPhdrTable;
    var cs := SegmentWrites(Class64, m, ps);
    var w, f := cs[k], Written(Class64, m, ps, hs);
    OutputLength(Class64, m, ps, hs);
    forall i | w.src <= i < w.src + w.len ensures f[i] == m[i] {
      assert Covers(w, i);
      FileAt(Class64, m, ps, hs, i);
    }
  }

  /** The appended wrapper copies the code to its own offset. */
  lemma CodeChunk(m: seq<byte>, ps: seq<PhdrRef>, code: seq<byte>, m': seq<byte>, ps': seq<PhdrRef>)
    requires Step(m, ps, code, m', ps') && PhdrRefsIn(Class64, m', ps')
    ensures |ps'| == |ps| + 1
    ensures SegmentWrites(Class64, m', ps')[|ps|] == Chunk(PageUp(|m|), PageUp(|m|), |code|)
  {
    hide EhdrAt, PhdrAt, HighestLoad, FirstNote, LoadsOk, ListOk, Outcome, Room, Injected, PageUp;
    StepFacts(m, ps, code, m', ps');
    WrapperAfter(m, ps, code, m', ps', |ps|);
  }

  lemma CodeInBuffer(m: seq<byte>, m': seq<byte>, code: seq<byte>, slot: nat, va: nat)
    requires Injected(m, m', code, slot, va)
    ensures PageUp(|m|) + |code| == |m'| && m'[PageUp(|m|)..PageUp(|m|) + |code|] == code
  {
    hide PageUp, EncodePhdr64;
  }

  /** The code reaches the file, at the offset the rewritten header names. */
  lemma CodeInFile(m: seq<byte>, ps: seq<PhdrRef>, code: seq<byte>, m': seq<byte>, ps': seq<PhdrRef>, hs: seq<ShdrRef>)
    requires Step(m, ps, code, m', ps')
    requires WriterSafe(Class64, m', ps', hs) && Coherent(Class64, m', ps', hs)
    ensures var f := Written(Class64, m', ps', hs);
            PageUp(|m|) + |code| <= |f| && f[PageUp(|m|)..PageUp(|m|) + |code|] == code
  {
    hide EhdrAt, PhdrAt, ShdrAt, HighestLoad, FirstNote, LoadsOk, Outcome, Room, Written, Coherent, Injected, PageUp;
    StepFacts(m, ps, code, m', ps');
    CodeChunk(m, ps, code, m', ps');
    CodeInBuffer(m, m', code, SlotOff(m, Victim(m, ps)), Target(m, ps));
    hide Step;
    SegmentInFile(m', ps', hs, |ps|);
  }

  /**
   * Inject into a writable binary, write it, parse the output: the code at its offset
   * and, provided the symbols' bytes survive, the same section headers and symbols and the
   * same program headers but for the rewritten one if and only if the header survives.
   */
  lemma InjectWriteParse(m: seq<byte>, ps: seq<PhdrRef>, code: seq<byte>, m': seq<byte>, ps': seq<PhdrRef>)
    requires Writable(m, ps) && Step(m, ps, code, m', ps') && FirstNote(m, ps).Some?
    requires SlotClear(m, SlotOff(m, Victim(m, ps)), Parse(m))
    requires SmallBuffer(m') && EHDR_LEN <= |m'| && OutputFits(m', ps')
    ensures var hs := Parse(m).shdrs;
            && Victim(m, ps) < |Parse(m).phdrs| && WriterSafe(Class64, m', ps', hs)
            && var f := Written(Class64, m', ps', hs);
            && SmallBuffer(f)
            && (SymbolsSurvive(Class64, m', ps', hs, Parse(m)) ==>
                  (Parse(f) == ParseAfter(m, ps) <==> HeaderSurvives(Class64, m', ps', hs)))
            && (IdentificationLost(Class64, m', ps', hs) ==> Parse(f).code == EFAULT)
            && PageUp(|m|) + |code| <= |f|
            && f[PageUp(|m|)..PageUp(|m|) + |code|] == code
  {
    hide EhdrAt, PhdrAt, Parse, Written, FirstNote, HighestLoad, Outcome, Room, LoadsOk, ListOk, SlotClear, OutputFits;
    hide WriterSafe, Coherent, FullEntries, HeaderSurvives, IdentificationLost, PageUp, Injected, SurvivesOn;
    StaysWritable(m, ps, code, m', ps');
    StepFacts(m, ps, code, m', ps');
    SlotsAfter(m, m', code, Victim(m, ps), Target(m, ps));
    WritableRoundTrip(m', ps');
    CodeInFile(m, ps, code, m', ps', Parse(m).shdrs);
  }

  // ----- starting from a parsed file -----

  /** The list a parse builds is the table in order. */
  lemma ParsedIsReady(m: seq<byte>)
    requires SmallBuffer(m) && Parse(m).code == Success && ClassOf(m) == Class64
    requires TableIn(m) && LoadsOk(m)
    ensures Ready(m, Parse(m).phdrs)
  {
    hide EhdrAt, PhdrAt, Parse, LoadsOk;
    ParsedIsCoherent(m);
    var ps := Parse(m).phdrs;
    forall k | 0 <= k < Phnum(m) ensures ps[k].p_offset == SlotOff(m, k) && OnTable(m, ps[k]) {
      assert ps[k] == PhdrRefAt(Class64, m, k);
    }
  }

  /** Parse, inject, write, parse. */
  lemma ParseInjectWriteParse(m: seq<byte>, code: seq<byte>, m': seq<byte>, ps': seq<PhdrRef>)
    requires SmallBuffer(m) && Parse(m).code == Success && EHDR_LEN <= |m| && ClassOf(m) == Class64
    requires TableIn(m) && LoadsOk(m) && FullEntries(Class64, m)
    requires WriterSafe(Class64, m, Parse(m).phdrs, Parse(m).shdrs)
    requires Step(m, Parse(m).phdrs, code, m', ps') && FirstNote(m, Parse(m).phdrs).Some?
    requires SlotClear(m, FirstNote(m, Parse(m).phdrs).value.p_offset, Parse(m))
    requires SmallBuffer(m') && EHDR_LEN <= |m'| && OutputFits(m', ps')
    ensures Writable(m, Parse(m).phdrs) && Ready(m, Parse(m).phdrs)
    ensures var p := Parse(m);
            && Victim(m, p.phdrs) < |p.phdrs| && WriterSafe(Class64, m', ps', p.shdrs)
            && var f := Written(Class64, m', ps', p.shdrs);
            && SmallBuffer(f)
            && (SymbolsSurvive(Class64, m', ps', p.shdrs, p) ==>
                  (Parse(f) == ParseAfter(m, p.phdrs) <==> HeaderSurvives(Class64, m', ps', p.shdrs)))
            && (IdentificationLost(Class64, m', ps', p.shdrs) ==> Parse(f).code == EFAULT)
            && PageUp(|m|) + |code| <= |f|
            && f[PageUp(|m|)..PageUp(|m|) + |code|] == code
  {
    hide EhdrAt, PhdrAt, Parse, LoadsOk, ListOk, SlotClear, WriterSafe, Coherent, Written, FirstNote, OutputFits, Step;
    hide HeaderSurvives, IdentificationLost, PageUp, SymbolsSurvive, FullEntries;
    ParsedIsReady(m);
    ParsedIsCoherent(m);
    InjectWriteParse(m, Parse(m).phdrs, code, m', ps');
  }
}
