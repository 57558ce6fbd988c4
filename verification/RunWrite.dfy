/** What a loader and a parser see of the file written after any run of injections. */
module RunWrite {
  import opened Bytes
  import opened Layout
  import opened ParseSpec
  import opened ParseFrame
  import opened WriteSpec
  import opened WriteFacts
  import opened InjectSpec
  import opened Loader
  import opened InjectFacts
  import opened InjectRuns
  import opened InjectWrite

  // ----- the memory image of a written file -----

  /** The three header fields a loader reads survive the write. */
  ghost predicate FieldsSurvive(m: seq<byte>, ps: seq<PhdrRef>, hs: seq<ShdrRef>)
    requires WriterSafe(Class64, m, ps, hs)
  {
    var e, e' := EhdrAt(Class64, m), CopiedHeader(Class64, m, ps, hs);
    e'.phoff == e.phoff && e'.phentsize == e.phentsize && e'.phnum == e.phnum
  }

  lemma TableOfCopy(m: seq<byte>, ps: seq<PhdrRef>, hs: seq<ShdrRef>)
    requires EhdrOk(m) && ClassOf(m) == Class64 && Ready(m, ps) && FullEntries(Class64, m)
    requires WriterSafe(Class64, m, ps, hs) && Coherent(Class64, m, ps, hs) && FieldsSurvive(m, ps, hs)
    ensures var f := Written(Class64, m, ps, hs);
            && |m| <= |f| && TableIn(f) && Phnum(f) == Phnum(m)
            && forall k :: 0 <= k < Phnum(m) ==> Slot(f, k) == Slot(m, k)
  {
    hide EhdrAt, PhdrAt, Written, WriterSafe, Coherent, CopiedHeader, LoadsOk, ListOk, EhdrOk, IdentOk;
    var f := Written(Class64, m, ps, hs);
    TableBehindHeader(m, ps);
    HeaderOfCopy(m, ps, hs);
    TableEntriesSurvive(Class64, m, ps, hs);
    forall k | 0 <= k < Phnum(m) ensures PhdrAt(Class64, f, SlotOff(m, k)) == Slot(m, k) {
      PhdrFrame(Class64, m, f, SlotOff(m, k));
    }
  }

  /** The file-backed bytes of every segment reach the file. */
  lemma SegmentBytes(m: seq<byte>, ps: seq<PhdrRef>, hs: seq<ShdrRef>, k: nat, i: nat)
    requires Ready(m, ps) && WriterSafe(Class64, m, ps, hs) && Coherent(Class64, m, ps, hs)
    requires IsLoad(m, k) && Slot(m, k).offset <= i < Slot(m, k).offset + Slot(m, k).filesz
    ensures i < |m| && i < |Written(Class64, m, ps, hs)| && Written(Class64, m, ps, hs)[i] == m[i]
  {
    hide EhdrAt, PhdrAt, ShdrAt, Written, Coherent, LoadsOk, ListOk, InPhdrTable, InExtraSlots, InExtraSlot;
    TableWrapper(m, ps, k);
    var cs := SegmentWrites(Class64, m, ps);
    assert Covers(cs[k], i);
    assert SegmentOk(m, Slot(m, k)) by { LoadIsOk(m, k); }
    OutputLength(Class64, m, ps, hs);
    FileAt(Class64, m, ps, hs, i);
  }

  lemma LoadIsOk(m: seq<byte>, k: nat)
    requires TableIn(m) && LoadsOk(m) && IsLoad(m, k)
    ensures SegmentOk(m, Slot(m, k))
  {
  }

  lemma LoadsOfCopy(m: seq<byte>, f: seq<byte>)
    requires TableIn(m) && TableIn(f) && LoadsOk(m) && |m| <= |f| && Phnum(f) == Phnum(m)
    requires forall k :: 0 <= k < Phnum(m) ==> Slot(f, k) == Slot(m, k)
    ensures LoadsOk(f)
  {
    hide Slot;
    forall k: nat | IsLoad(f, k) ensures SegmentOk(f, Slot(f, k)) {
      assert SegmentOk(m, Slot(m, k));
    }
  }

  /** A written file in which the fields that locate the program headers survive has the memory image of the buffer. */
  lemma WriteKeepsImage(m: seq<byte>, ps: seq<PhdrRef>, hs: seq<ShdrRef>, a: nat)
    requires EhdrOk(m) && ClassOf(m) == Class64 && Ready(m, ps) && FullEntries(Class64, m)
    requires WriterSafe(Class64, m, ps, hs) && Coherent(Class64, m, ps, hs) && FieldsSurvive(m, ps, hs)
    ensures var f := Written(Class64, m, ps, hs); TableIn(f) && LoadsOk(f) && Image(f, a) == Image(m, a)
  {
    hide EhdrAt, PhdrAt, Slot, Written, WriterSafe, Coherent, FieldsSurvive, LoadsOk, ListOk, EhdrOk, Image;
    hide FullEntries;
    var f := Written(Class64, m, ps, hs);
    TableOfCopy(m, ps, hs);
    LoadsOfCopy(m, f);
    assert forall k: nat :: Maps(f, k, a) <==> Maps(m, k, a);
    if Mapped(m, a) {
      var k: nat :| Maps(m, k, a);
      ImageIs(m, k, a);
      ImageIs(f, k, a);
      if FileByte(m, k, a).Some? {
        SegmentBytes(m, ps, hs, k, FileByte(m, k, a).value);
      }
    } else {
      NotMapped(m, a);
      NotMapped(f, a);
    }
  }

  // ----- a whole run of injections -----

  /** Every PT_NOTE header is clear of the section headers and the symbols. */
  ghost predicate NotesClear(m: seq<byte>, p: Parsed)
    requires TableIn(m)
  {
    forall s :: IsNote(m, s) ==> SlotClear(m, SlotOff(m, s), p)
  }

  /** Nothing an injection does brings a header slot and a table together. */
  lemma StaysClear(m: seq<byte>, m': seq<byte>, slot: nat, p: Parsed, p': Parsed)
    requires EHDR_LEN <= |m| <= |m'| && EhdrAt(Class64, m') == EhdrAt(Class64, m)
    requires ShdrsAgree(Class64, m, m') && SymsKept(Class64, m, m', p)
    requires ShdrsIn(Class64, m, EhdrAt(Class64, m).shnum) && p.shdrs == ShdrRefs(Class64, m, EhdrAt(Class64, m).shnum)
    requires p.strtab.Some? ==> p.strtab.value in p.shdrs
    requires p'.syms == p.syms && p'.strtab == p.strtab
    requires SlotClear(m, slot, p)
    ensures SlotClear(m', slot, p')
  {
    hide EhdrAt, ShdrAt, SymAt, Disjoint;
    var e := EhdrAt(Class64, m);
    if p.syms != [] {
      var k :| 0 <= k < |p.shdrs| && p.shdrs[k] == p.strtab.value;
      assert p.shdrs[k] == ShdrRefAt(Class64, m, k);
      ShdrFrame(Class64, m, m', EntryOff(e.shoff, e.shentsize, k));
      forall i | 0 <= i < |p.syms|
        ensures var s := p.syms[i];
                s.sym_offset + 24 <= |m'| && SymAt(Class64, m', s.sym_offset) == SymAt(Class64, m, s.sym_offset)
      {
        assert SymKept(Class64, m, m', ShdrAt(Class64, m, p.strtab.value.sh_offset).offset, p.syms[i]);
        SymFrame(Class64, m, m', p.syms[i].sym_offset);
      }
    }
  }

  /** What every binary of a run keeps, besides being well-formed. */
  ghost predicate RunInvariant(b: Bin)
  {
    Writable(b.m, b.ps) && TableIn(b.m) && NotesClear(b.m, Parse(b.m))
  }

  lemma StepInvariant(b: Bin, code: seq<byte>, b': Bin)
    requires RunInvariant(b) && Step(b.m, b.ps, code, b'.m, b'.ps) && |b'.m| < Class64.Modulus() / 2
    ensures RunInvariant(b') && FirstNote(b.m, b.ps).Some?
    ensures Victim(b.m, b.ps) < |Parse(b.m).phdrs| && Parse(b'.m) == ParseAfter(b.m, b.ps)
  {
    hide EhdrAt, PhdrAt, ShdrAt, Parse, FirstNote, HighestLoad, Outcome, Room, LoadsOk, ListOk, SlotClear, Slot;
    hide Injected, Writable, SymsKept, ShdrsAgree, PhdrRefsIn;
    var m, m' := b.m, b'.m;
    SmallInvariant(b);
    StepFacts(m, b.ps, code, m', b'.ps);
    var s := Victim(m, b.ps);
    SlotsAfter(m, m', code, s, Target(m, b.ps));
    ClassAfter(m, b.ps, code, m', b'.ps);
    assert Writable(m, b.ps) && SlotClear(m, SlotOff(m, s), Parse(m));
    StaysWritable(m, b.ps, code, m', b'.ps);
    WritableSections(m, b.ps);
    LengthGrows(m, m', code, SlotOff(m, s), Target(m, b.ps));
    forall k: nat | IsNote(m', k) ensures SlotClear(m', SlotOff(m', k), Parse(m')) {
      assert IsNote(m, k);
      StaysClear(m, m', SlotOff(m, k), Parse(m), Parse(m'));
    }
  }

  lemma WritableSections(m: seq<byte>, ps: seq<PhdrRef>)
    requires Writable(m, ps)
    ensures EHDR_LEN <= |m| && ShdrsIn(Class64, m, EhdrAt(Class64, m).shnum)
    ensures Parse(m).shdrs == ShdrRefs(Class64, m, EhdrAt(Class64, m).shnum)
    ensures Parse(m).strtab.Some? ==> Parse(m).strtab.value in Parse(m).shdrs
  {
    hide EhdrAt, Parse, WriterSafe, Coherent;
    SectionsOfParsed(m);
  }

  lemma ClassAfter(m: seq<byte>, ps: seq<PhdrRef>, code: seq<byte>, m': seq<byte>, ps': seq<PhdrRef>)
    requires Writable(m, ps) && Step(m, ps, code, m', ps') && |m'| < Class64.Modulus() / 2
    ensures SmallBuffer(m')
  {
    hide EhdrAt, PhdrAt, Parse, FirstNote, HighestLoad, Outcome, Room, LoadsOk, ListOk;
    hide WriterSafe, Coherent, FullEntries;
    StepFacts(m, ps, code, m', ps');
    EhdrOfParsed(m);
    assert m'[4] == m[4];
  }

  /** Buffers only grow along a run. */
  lemma {:induction false} RunGrows(bs: seq<Bin>, codes: seq<seq<byte>>, i: nat, j: nat)
    requires Run(bs, codes) && i <= j <= |codes|
    ensures |bs| == |codes| + 1 && |bs[i].m| <= |bs[j].m|
    decreases j
  {
    hide EhdrAt, PhdrAt, Step, Ready;
    if i < j {
      RunGrows(bs, codes, i, j - 1);
      RunStep(bs, codes, j - 1);
      StepGrows(bs[j - 1], codes[j - 1], bs[j]);
    }
  }

  lemma StepGrows(b: Bin, code: seq<byte>, b': Bin)
    requires Step(b.m, b.ps, code, b'.m, b'.ps)
    ensures |b.m| <= |b'.m|
  {
    hide EhdrAt, PhdrAt, FirstNote, HighestLoad, Room, LoadsOk, ListOk, Injected;
    StepFacts(b.m, b.ps, code, b'.m, b'.ps);
    LengthGrows(b.m, b'.m, code, SlotOff(b.m, Victim(b.m, b.ps)), Target(b.m, b.ps));
  }

  /** Header k is not the one any of the first i injections rewrites. */
  ghost predicate Untouched(bs: seq<Bin>, codes: seq<seq<byte>>, i: nat, k: nat)
    requires i <= |codes| && |bs| == |codes| + 1
  {
    forall j :: 0 <= j < i && Ready(bs[j].m, bs[j].ps) && FirstNote(bs[j].m, bs[j].ps).Some? ==>
      k != Victim(bs[j].m, bs[j].ps)
  }

  /** Along a run the binaries stay writable, sections and symbols stay, and untouched program headers stay. */
  lemma {:induction false} RunParses(bs: seq<Bin>, codes: seq<seq<byte>>, i: nat)
    requires Run(bs, codes) && i <= |codes| && RunInvariant(bs[0])
    requires |bs[|codes|].m| < Class64.Modulus() / 2
    ensures |bs| == |codes| + 1 && RunInvariant(bs[i])
    ensures var p, p0 := Parse(bs[i].m), Parse(bs[0].m);
            && |p.phdrs| == |p0.phdrs| && p == p0.(phdrs := p.phdrs)
            && forall k :: 0 <= k < |p0.phdrs| && Untouched(bs, codes, i, k) ==> p.phdrs[k] == p0.phdrs[k]
  {
    hide EhdrAt, PhdrAt, Parse, Step, Ready, RunInvariant, FirstNote, TableIn, PhdrRefsIn;
    assert RunInvariant(bs[0]) ==> SmallBuffer(bs[0].m) by { SmallInvariant(bs[0]); }
    RunStart(bs, codes);
    if i > 0 {
      RunParses(bs, codes, i - 1);
      RunStep(bs, codes, i - 1);
      RunGrows(bs, codes, i, |codes|);
      StepInvariant(bs[i - 1], codes[i - 1], bs[i]);
      SmallInvariant(bs[i]);
      ReadyBefore(bs[i - 1], codes[i - 1], bs[i]);
      forall k | 0 <= k < |Parse(bs[0].m).phdrs| && Untouched(bs, codes, i, k)
        ensures Parse(bs[i].m).phdrs[k] == Parse(bs[0].m).phdrs[k]
      {
        assert Untouched(bs, codes, i - 1, k);
        assert k != Victim(bs[i - 1].m, bs[i - 1].ps);
      }
    }
  }

  lemma SmallInvariant(b: Bin)
    requires RunInvariant(b)
    ensures SmallBuffer(b.m)
  {
    hide Parse, WriterSafe, Coherent, FullEntries, NotesClear, TableIn;
  }

  lemma ReadyBefore(b: Bin, code: seq<byte>, b': Bin)
    requires Step(b.m, b.ps, code, b'.m, b'.ps)
    ensures Ready(b.m, b.ps) && PhdrRefsIn(Class64, b.m, b.ps)
  {
    hide Outcome, Room, HighestLoad;
  }

  /**
   * Write after any run of injections and parse: provided the symbols' bytes survive, the
   * result of the final buffer's own parse, with the same sections and symbols and the
   * headers no injection touched, if and only if the header survives.
   */
  lemma RunWriteParse(bs: seq<Bin>, codes: seq<seq<byte>>)
    requires Run(bs, codes) && RunInvariant(bs[0])
    requires EHDR_LEN <= |bs[|codes|].m| && ClassOf(bs[|codes|].m) == Class64
    requires OutputFits(bs[|codes|].m, bs[|codes|].ps)
    ensures var m, ps, p0 := bs[|codes|].m, bs[|codes|].ps, Parse(bs[0].m);
            && SmallBuffer(m) && WriterSafe(Class64, m, ps, p0.shdrs)
            && var f := Written(Class64, m, ps, p0.shdrs);
            && SmallBuffer(f)
            && (SymbolsSurvive(Class64, m, ps, p0.shdrs, Parse(m)) ==>
                  (Parse(f) == Parse(m) <==> HeaderSurvives(Class64, m, ps, p0.shdrs)))
            && (IdentificationLost(Class64, m, ps, p0.shdrs) ==> Parse(f).code == EFAULT)
            && Parse(m) == p0.(phdrs := Parse(m).phdrs) && |Parse(m).phdrs| == |p0.phdrs|
            && forall k :: 0 <= k < |p0.phdrs| && Untouched(bs, codes, |codes|, k) ==>
                 Parse(m).phdrs[k] == p0.phdrs[k]
  {
    hide EhdrAt, PhdrAt, Parse, Run, Ready, NotesClear, Untouched, Written, WriterSafe, Coherent;
    hide HeaderSurvives, IdentificationLost, FullEntries, TableIn, SymbolsSurvive;
    RunParses(bs, codes, 0);
    var last := bs[|codes|];
    assert |last.m| < Class64.Modulus() / 2;
    RunParses(bs, codes, |codes|);
    WritableRoundTrip(last.m, last.ps);
  }

  /** Symbols that lie in section contents do so after every run, and then survive the write. */
  lemma {:induction false} RunSymbolsSurvive(bs: seq<Bin>, codes: seq<seq<byte>>, i: nat)
    requires Run(bs, codes) && i <= |codes| && RunInvariant(bs[0])
    requires |bs[|codes|].m| < Class64.Modulus() / 2
    requires RefsIn(Class64, bs[0].m, Parse(bs[0].m).shdrs) && SymbolsInSections(Class64, bs[0].m, Parse(bs[0].m))
    ensures RunInvariant(bs[i]) && SmallBuffer(bs[i].m) && RefsIn(Class64, bs[i].m, Parse(bs[i].m).shdrs)
    ensures SymbolsInSections(Class64, bs[i].m, Parse(bs[i].m))
    ensures SymbolsSurvive(Class64, bs[i].m, bs[i].ps, Parse(bs[i].m).shdrs, Parse(bs[i].m))
  {
    hide EhdrAt, PhdrAt, Parse, Step, Ready, FirstNote, TableIn, PhdrRefsIn, NotesClear, WriterSafe, Coherent;
    hide SymbolsInSections, SymbolsSurvive, FullEntries, RefsIn, Run;
    RunParses(bs, codes, i);
    RunStart(bs, codes);
    if i > 0 {
      RunSymbolsSurvive(bs, codes, i - 1);
      RunStep(bs, codes, i - 1);
      RunGrows(bs, codes, i, |codes|);
      StepSymbols(bs[i - 1], codes[i - 1], bs[i]);
    }
    SymbolsInSectionsSurvive(Class64, bs[i].m, bs[i].ps, Parse(bs[i].m));
  }

  lemma StepSymbols(b: Bin, code: seq<byte>, b': Bin)
    requires RunInvariant(b) && Step(b.m, b.ps, code, b'.m, b'.ps) && |b'.m| < Class64.Modulus() / 2
    requires RefsIn(Class64, b.m, Parse(b.m).shdrs) && SymbolsInSections(Class64, b.m, Parse(b.m))
    ensures SmallBuffer(b'.m) && RefsIn(Class64, b'.m, Parse(b'.m).shdrs)
    ensures SymbolsInSections(Class64, b'.m, Parse(b'.m))
  {
    hide EhdrAt, PhdrAt, ShdrAt, Parse, FirstNote, HighestLoad, Outcome, Room, LoadsOk, ListOk, SlotClear, Slot;
    hide Injected, Writable, SymbolsInSections, PhdrRefsIn;
    SmallInvariant(b);
    StepFacts(b.m, b.ps, code, b'.m, b'.ps);
    ClassAfter(b.m, b.ps, code, b'.m, b'.ps);
    SymbolsStayInSections(b.m, b.ps, code, b'.m, b'.ps);
  }

  // ----- the injected codes in the written file -----

  /** The final buffer still holds code j at its offset, in segment Victim(j). */
  lemma CodeInFinalBuffer(bs: seq<Bin>, codes: seq<seq<byte>>, j: nat, x: nat)
    requires Run(bs, codes) && j < |codes| && x < |codes[j]|
    ensures |bs| == |codes| + 1
    ensures Ready(bs[j].m, bs[j].ps) && FirstNote(bs[j].m, bs[j].ps).Some? && HighestLoad(bs[j].m, bs[j].ps).Some?
    ensures Ready(bs[|codes|].m, bs[|codes|].ps)
    ensures var m, s, at := bs[|codes|].m, Victim(bs[j].m, bs[j].ps), PageUp(|bs[j].m|);
            && s < Phnum(m) && Slot(m, s) == NewSegment(at, Target(bs[j].m, bs[j].ps), |codes[j]|)
            && at + x < |m| && m[at + x] == codes[j][x]
  {
    hide EhdrAt, PhdrAt, LoadsOk, ListOk, Run, Step, Image, HighestLoad, FirstNote, PageUp;
    InjectedCodeStays(bs, codes, j, |codes|, x);
    RunStart(bs, codes);
    var m, s := bs[|codes|].m, Victim(bs[j].m, bs[j].ps);
    assert IsLoad(m, s);
    ImageIs(m, s, Target(bs[j].m, bs[j].ps) + x);
  }

  /**
   * Whatever becomes of the header, every code of a run stands in the written file at its
   * offset, and the final parse has a wrapper for it in the rewritten header.
   */
  lemma RunCodeInFile(bs: seq<Bin>, codes: seq<seq<byte>>, j: nat, x: nat)
    requires Run(bs, codes) && RunInvariant(bs[0]) && |bs[|codes|].m| < Class64.Modulus() / 2
    requires j < |codes| && x < |codes[j]|
    ensures RunInvariant(bs[|codes|]) && SmallBuffer(bs[|codes|].m)
    ensures Ready(bs[j].m, bs[j].ps) && FirstNote(bs[j].m, bs[j].ps).Some?
    ensures var m, p, s := bs[|codes|].m, Parse(bs[|codes|].m), Victim(bs[j].m, bs[j].ps);
            var f := Written(Class64, m, bs[|codes|].ps, p.shdrs);
            && PageUp(|bs[j].m|) + x < |f| && f[PageUp(|bs[j].m|) + x] == codes[j][x]
            && s < |p.phdrs| && p.phdrs[s] == PhdrRef(s, SlotOff(m, s), PageUp(|bs[j].m|))
  {
    hide EhdrAt, PhdrAt, LoadsOk, ListOk, Run, Step, Parse, HighestLoad, FirstNote, PageUp, Written, NotesClear;
    hide WriterSafe, Coherent, FullEntries;
    CodeInFinalBuffer(bs, codes, j, x);
    RunParses(bs, codes, |codes|);
    var last, s := bs[|codes|], Victim(bs[j].m, bs[j].ps);
    SmallInvariant(last);
    assert IsLoad(last.m, s);
    SegmentBytes(last.m, last.ps, Parse(last.m).shdrs, s, PageUp(|bs[j].m|) + x);
    WrapperOfParsed(last.m, s);
  }

  lemma WrapperOfParsed(m: seq<byte>, k: nat)
    requires SmallBuffer(m) && Parse(m).code == Success && EHDR_LEN <= |m| && ClassOf(m) == Class64
    requires TableIn(m) && k < Phnum(m)
    ensures k < |Parse(m).phdrs| && Parse(m).phdrs[k] == PhdrRef(k, SlotOff(m, k), Slot(m, k).offset)
  {
    hide EhdrAt, PhdrAt, Parse;
    PhdrRefsOfParsed(m);
    assert Parse(m).phdrs[k] == PhdrRefAt(Class64, m, k);
  }

  /**
   * When the fields that locate the program headers survive, the loader sees of the
   * written file what it sees of the final buffer: every code at its address, every
   * original address whose byte is outside the program header table unchanged, and nothing
   * at any other address.
   */
  lemma RunWriteImage(bs: seq<Bin>, codes: seq<seq<byte>>)
    requires Run(bs, codes) && RunInvariant(bs[0]) && |bs[|codes|].m| < Class64.Modulus() / 2
    requires var b := bs[|codes|]; var hs := Parse(bs[0].m).shdrs;
             WriterSafe(Class64, b.m, b.ps, hs) && FieldsSurvive(b.m, b.ps, hs)
    ensures var f := Written(Class64, bs[|codes|].m, bs[|codes|].ps, Parse(bs[0].m).shdrs);
            && TableIn(f) && LoadsOk(f) && TableIn(bs[0].m) && LoadsOk(bs[0].m)
            && (forall j, x :: 0 <= j < |codes| && 0 <= x < |codes[j]| ==> ShowsCode(f, bs[j], codes[j], x))
            && (forall k, a :: Maps(bs[0].m, k, a) && OutsideTable(bs[0].m, FileByte(bs[0].m, k, a)) ==>
                  Image(f, a) == Image(bs[0].m, a))
            && (forall a: nat :: !Mapped(bs[0].m, a) && OutsideCodes(bs, codes, |codes|, a) ==> Image(f, a) == None)
  {
    hide EhdrAt, PhdrAt, Parse, Run, ListOk, LoadsOk, Image, Maps, FileByte, OutsideTable, Written, FieldsSurvive;
    hide WriterSafe, Coherent, FullEntries, NotesClear, ShowsCode, Target, Step, EhdrOk, IdentOk;
    RunParses(bs, codes, |codes|);
    RunSafety(bs, codes, 0);
    RunSafety(bs, codes, |codes|);
    var last := bs[|codes|];
    SmallInvariant(last);
    EhdrOfParsed(last.m);
    var f := Written(Class64, last.m, last.ps, Parse(bs[0].m).shdrs);
    WriteKeepsImage(last.m, last.ps, Parse(bs[0].m).shdrs, 0);
    forall j, x | 0 <= j < |codes| && 0 <= x < |codes[j]| ensures ShowsCode(f, bs[j], codes[j], x) {
      CodeShown(bs, codes, j, x);
    }
    forall k: nat, a: nat | Maps(bs[0].m, k, a) && OutsideTable(bs[0].m, FileByte(bs[0].m, k, a))
      ensures Image(f, a) == Image(bs[0].m, a)
    {
      RunKeeps(bs, codes, 0, |codes|, k, a);
      WriteKeepsImage(last.m, last.ps, Parse(bs[0].m).shdrs, a);
    }
    forall a: nat | !Mapped(bs[0].m, a) && OutsideCodes(bs, codes, |codes|, a)
      ensures Image(f, a) == None
    {
      RunStaysUnmapped(bs, codes, |codes|, a);
      NotMapped(last.m, a);
      WriteKeepsImage(last.m, last.ps, Parse(bs[0].m).shdrs, a);
    }
  }

  /** The loader sees byte x of the code injected into b. */
  ghost predicate ShowsCode(f: seq<byte>, b: Bin, code: seq<byte>, x: nat)
    requires TableIn(f) && LoadsOk(f) && x < |code|
  {
    && PhdrRefsIn(Class64, b.m, b.ps) && HighestLoad(b.m, b.ps).Some?
    && Image(f, Target(b.m, b.ps) + x) == Some(code[x])
  }

  lemma CodeShown(bs: seq<Bin>, codes: seq<seq<byte>>, j: nat, x: nat)
    requires Run(bs, codes) && RunInvariant(bs[0]) && |bs[|codes|].m| < Class64.Modulus() / 2
    requires var b := bs[|codes|]; var hs := Parse(bs[0].m).shdrs;
             WriterSafe(Class64, b.m, b.ps, hs) && FieldsSurvive(b.m, b.ps, hs)
    requires j < |codes| && x < |codes[j]|
    ensures var f := Written(Class64, bs[|codes|].m, bs[|codes|].ps, Parse(bs[0].m).shdrs);
            TableIn(f) && LoadsOk(f) && ShowsCode(f, bs[j], codes[j], x)
  {
    hide EhdrAt, PhdrAt, Parse, Run, ListOk, LoadsOk, Image, Written, FieldsSurvive, HighestLoad, FirstNote, EhdrOk;
    hide WriterSafe, Coherent, FullEntries, NotesClear, Step, PageUp, IdentOk;
    RunParses(bs, codes, |codes|);
    InjectedCodeStays(bs, codes, j, |codes|, x);
    var last := bs[|codes|];
    SmallInvariant(last);
    EhdrOfParsed(last.m);
    WriteKeepsImage(last.m, last.ps, Parse(bs[0].m).shdrs, Target(bs[j].m, bs[j].ps) + x);
  }
}
