/** A binary with one PT_LOAD and one PT_NOTE header: injected, written and parsed back. */
module InjectExample {
  import opened Bytes
  import opened Layout
  import opened ParseSpec
  import opened ParseFrame
  import opened ParseFacts
  import opened WriteSpec
  import opened WriteFacts
  import opened InjectSpec
  import opened Loader
  import opened InjectFacts
  import opened InjectRuns
  import opened InjectWrite
  import opened RunWrite
  import opened Decoded
  import opened Specimen

  // ----- a successful injection exists whenever its conditions hold -----

  lemma StepExists(m: seq<byte>, ps: seq<PhdrRef>, code: seq<byte>) returns (m': seq<byte>, ps': seq<PhdrRef>)
    requires Ready(m, ps) && Room(m, ps, code) && FirstNote(m, ps).Some? && HighestLoad(m, ps).Some?
    ensures Step(m, ps, code, m', ps')
  {
    hide EhdrAt, PhdrAt, FirstNote, HighestLoad, Injected, LoadsOk, ListOk, EncodePhdr64, Room;
    var slot := SlotOff(m, Victim(m, ps));
    PageUpMeaning(|m|);
    NoteSlotInside(m, ps);
    var g := Padded(m, code);
    RewriteSlot(m, g, code, slot, Target(m, ps));
    m' := Splice(g, slot, EncodePhdr64(NewSegment(PageUp(|m|), Target(m, ps), |code|)));
    ps' := ps + [NewRef(m, slot)];
    OutcomeOfSuccess(m, ps, code, m', Target(m, ps));
  }

  /** The buffer, zeros up to the next page, and the code. */
  function Padded(m: seq<byte>, code: seq<byte>): (g: seq<byte>)
    ensures Appended(m, g, code)
  {
    PageUpMeaning(|m|);
    m + Zeros(PageUp(|m|) - |m|) + code
  }

  // ----- the bytes -----

  /** ELF header, a PT_LOAD over the whole file, an empty PT_NOTE, and an empty SHT_SYMTAB. */
  function Binary(): (m: seq<byte>)
    ensures |m| == 240 && forall i :: 0 <= i < 240 ==> m[i] == ByteAt(i)
  {
    seq(240, i => ByteAt(i))
  }

  function ByteAt(i: int): byte
  {
    if i == 0 then 0x7f else if i == 1 then 0x45 else if i == 2 then 0x4c else if i == 3 then 0x46
    else if i == 4 then 2 else if i == 5 then 1 else if i == 6 then 1
    else if i == 32 then 64                         // e_phoff
    else if i == 40 then 176                        // e_shoff
    else if i == 54 then 56 else if i == 56 then 2  // e_phentsize, e_phnum
    else if i == 58 then 64 else if i == 60 then 1  // e_shentsize, e_shnum
    else if i == 64 then 1                          // p_type: PT_LOAD
    else if i == 96 || i == 104 then 240            // p_filesz, p_memsz
    else if i == 120 then 4                         // p_type: PT_NOTE
    else if i == 180 then 2                         // sh_type: SHT_SYMTAB
    else 0
  }

  /** What matters about the binary. */
  ghost predicate Like(m: seq<byte>)
  {
    && |m| == 240 && OneSymtab(m, 176, Shdr(SHT_SYMTAB, 0, 0, 0, 0))
    && EhdrAt(Class64, m) == Ehdr(64, 176, 56, 2, 64, 1, 0)
    && PhdrAt(Class64, m, 64) == Phdr(PT_LOAD, 0, 0, 0, 0, 240, 240, 0)
    && PhdrAt(Class64, m, 120) == Phdr(PT_NOTE, 0, 0, 0, 0, 0, 0, 0)
  }

  lemma HeaderIs(m: seq<byte>)
    requires m == Binary()
    ensures IdentOk(m) && ClassOf(m) == Class64 && EhdrAt(Class64, m) == Ehdr(64, 176, 56, 2, 64, 1, 0)
    ensures ShdrAt(Class64, m, 176) == Shdr(SHT_SYMTAB, 0, 0, 0, 0)
  {
    hide EhdrAt, ShdrAt;
    EhdrFields(m);
    ShdrFields64(m, 176);
  }

  lemma LoadIs(m: seq<byte>)
    requires m == Binary()
    ensures PhdrAt(Class64, m, 64) == Phdr(PT_LOAD, 0, 0, 0, 0, 240, 240, 0)
  {
    hide PhdrAt;
    PhdrFields64(m, 64);
  }

  lemma NoteIs(m: seq<byte>)
    requires m == Binary()
    ensures PhdrAt(Class64, m, 120) == Phdr(PT_NOTE, 0, 0, 0, 0, 0, 0, 0)
  {
    hide PhdrAt;
    PhdrFields64(m, 120);
  }

  lemma BinaryIsLike()
    ensures Like(Binary())
  {
    hide EhdrAt, PhdrAt, ShdrAt, ByteAt, IdentOk;
    HeaderIs(Binary());
    LoadIs(Binary());
    NoteIs(Binary());
  }

  // ----- its parse -----

  lemma Wrappers(m: seq<byte>)
    requires Like(m)
    ensures PhdrsIn(Class64, m, 2) && PhdrRefs(Class64, m, 2) == [PhdrRef(0, 64, 0), PhdrRef(1, 120, 0)]
  {
    hide EhdrAt, PhdrAt, ShdrAt, IdentOk, EntryOff;
    Entries(64, 56);
    var ps := PhdrRefs(Class64, m, 2);
    assert ps[0] == PhdrRefAt(Class64, m, 0) && ps[1] == PhdrRefAt(Class64, m, 1);
  }

  lemma Parses(m: seq<byte>)
    requires Like(m)
    ensures EhdrOk(m)
    ensures Parse(m) == Parsed(Success, [PhdrRef(0, 64, 0), PhdrRef(1, 120, 0)], [ShdrRef(0, 176, 0)], None, None, [])
  {
    hide EhdrAt, PhdrAt, ShdrAt, IdentOk, EhdrOk, Parse, PhdrRefs, SymLoop;
    var tab, h := Shdr(SHT_SYMTAB, 0, 0, 0, 0), ShdrRef(0, 176, 0);
    OneSectionParses(m, 176, tab, h);
    NoSymbols(m, SymEnv(tab, None, [h]));
    Wrappers(m);
  }

  // ----- the conditions of the theorems -----

  lemma Segments(m: seq<byte>)
    requires Like(m)
    ensures TableIn(m) && LoadsOk(m) && Phnum(m) == 2 && SlotOff(m, 1) == 120
    ensures Slot(m, 0) == Phdr(PT_LOAD, 0, 0, 0, 0, 240, 240, 0) && Slot(m, 1) == Phdr(PT_NOTE, 0, 0, 0, 0, 0, 0, 0)
  {
    hide EhdrAt, PhdrAt, ShdrAt, IdentOk;
    assert SlotOff(m, 0) == 64 && SlotOff(m, 1) == 120;
    assert forall k :: IsLoad(m, k) ==> k == 0;
  }

  lemma CanBeWritten(m: seq<byte>, ps: seq<PhdrRef>)
    requires Like(m) && ps == [PhdrRef(0, 64, 0), PhdrRef(1, 120, 0)]
    ensures Parse(m).phdrs == ps && Parse(m).syms == [] && Writable(m, ps) && SlotClear(m, 120, Parse(m))
  {
    hide EhdrAt, PhdrAt, ShdrAt, IdentOk, EhdrOk, Parse, Coherent, EntryOff;
    Parses(m);
    ParsedIsCoherent(m);
    Chunks(m, ps, [ShdrRef(0, 176, 0)]);
    Entries(176, 64);
  }

  lemma Chunks(m: seq<byte>, ps: seq<PhdrRef>, hs: seq<ShdrRef>)
    requires Like(m) && ps == [PhdrRef(0, 64, 0), PhdrRef(1, 120, 0)] && hs == [ShdrRef(0, 176, 0)]
    ensures WriterSafe(Class64, m, ps, hs)
  {
    hide EhdrAt, PhdrAt, ShdrAt, IdentOk, EntryOff;
  }

  lemma FirstChoices(m: seq<byte>, ps: seq<PhdrRef>, code: seq<byte>)
    requires Like(m) && ps == [PhdrRef(0, 64, 0), PhdrRef(1, 120, 0)] && code == [0xc3]
    ensures PhdrRefsIn(Class64, m, ps)
    ensures FirstNote(m, ps) == Some(ps[1]) && HighestLoad(m, ps) == Some(ps[0]) && Room(m, ps, code)
  {
    hide EhdrAt, PhdrAt, ShdrAt, IdentOk;
    assert ps[1..][0] == ps[1] && ps[..1][..0] == [] && ps[..1] == [ps[0]];
    assert HighestLoad(m, ps[..1]) == Some(ps[0]);
  }

  // ----- the example -----

  /** After the injection the PT_LOAD still covers the whole ELF header. */
  lemma HeaderStays(m: seq<byte>, ps: seq<PhdrRef>, code: seq<byte>, m': seq<byte>, ps': seq<PhdrRef>,
                    hs: seq<ShdrRef>)
    requires Like(m) && ps == [PhdrRef(0, 64, 0), PhdrRef(1, 120, 0)] && Parse(m).phdrs == ps && Writable(m, ps)
    requires Step(m, ps, code, m', ps') && SmallBuffer(m') && SlotClear(m, 120, Parse(m))
    requires FirstNote(m, ps) == Some(ps[1])
    requires hs == Parse(m).shdrs
    ensures WriterSafe(Class64, m', ps', hs) && HeaderSurvives(Class64, m', ps', hs)
  {
    hide EhdrAt, PhdrAt, ShdrAt, Parse, EhdrOk, Outcome, Room, LoadsOk, ListOk, SlotClear, HighestLoad, FirstNote;
    hide WriterSafe, Coherent, SymbolsInSections, FullEntries, HeaderSurvives, Injected, IdentOk;
    StepFacts(m, ps, code, m', ps');
    StaysWritable(m, ps, code, m', ps');
    EhdrOfParsed(m');
    forall i | 0 <= i < EHDR_LEN ensures Kept(Class64, m', ps', hs, i) {
      LoadCovers(m, ps, hs, i);
      KeptAfter(m, ps, code, m', ps', hs, i);
    }
    WholeHeaderSurvives(m', ps', hs);
  }

  lemma LoadCovers(m: seq<byte>, ps: seq<PhdrRef>, hs: seq<ShdrRef>, i: nat)
    requires Like(m) && ps == [PhdrRef(0, 64, 0), PhdrRef(1, 120, 0)] && WriterSafe(Class64, m, ps, hs) && i < 240
    ensures KeptElsewhere(m, ps, hs, 120, i)
  {
    hide EhdrAt, PhdrAt, ShdrAt, IdentOk;
    assert Covers(SegmentWrites(Class64, m, ps)[0], i);
  }

  lemma Sizes(m: seq<byte>, ps: seq<PhdrRef>, code: seq<byte>, m': seq<byte>, ps': seq<PhdrRef>)
    requires Like(m) && ps == [PhdrRef(0, 64, 0), PhdrRef(1, 120, 0)] && |code| == 1
    requires Step(m, ps, code, m', ps')
    ensures SmallBuffer(m') && EHDR_LEN <= |m'| && ClassOf(m') == Class64 && OutputFits(m', ps')
  {
    hide PhdrAt, ShdrAt, EhdrAt, Outcome, Room, LoadsOk, ListOk, HighestLoad, FirstNote, EntryOff, PhdrRefsIn;
    StepFacts(m, ps, code, m', ps');
    LengthGrows(m, m', code, SlotOff(m, Victim(m, ps)), Target(m, ps));
    PageUpMeaning(|m|);
    SlotsAfter(m, m', code, Victim(m, ps), Target(m, ps));
    Entries(64, 56);
    assert m'[4] == m[4];
  }

  lemma CanStartARun(m: seq<byte>, ps: seq<PhdrRef>)
    requires Like(m) && Writable(m, ps) && SlotClear(m, 120, Parse(m))
    ensures RunInvariant(Bin(m, ps))
  {
    hide EhdrAt, PhdrAt, ShdrAt, IdentOk, Parse, Writable, SlotClear;
    Segments(m);
    assert forall s :: IsNote(m, s) ==> s == 1;
  }

  /** A concrete binary that can be injected, written and parsed back. */
  lemma InjectedAndParsedBack() returns (m: seq<byte>, code: seq<byte>, m': seq<byte>, ps': seq<PhdrRef>)
    ensures SmallBuffer(m) && Parse(m).code == Success && RunInvariant(Bin(m, Parse(m).phdrs))
    ensures Step(m, Parse(m).phdrs, code, m', ps') && FirstNote(m, Parse(m).phdrs).Some?
    ensures Victim(m, Parse(m).phdrs) < |Parse(m).phdrs| && WriterSafe(Class64, m', ps', Parse(m).shdrs)
    ensures var f := Written(Class64, m', ps', Parse(m).shdrs);
            SmallBuffer(f) && Parse(f) == ParseAfter(m, Parse(m).phdrs)
  {
    hide Binary, Like, Parse, Writable, LoadsOk, ListOk, Room, FirstNote, HighestLoad, SlotClear, Outcome, OutputFits;
    hide WriterSafe, HeaderSurvives, IdentificationLost, Written, EhdrAt, PhdrAt, SymbolsSurvive;
    m, code := Binary(), [0xc3];
    BinaryIsLike();
    var ps := [PhdrRef(0, 64, 0), PhdrRef(1, 120, 0)];
    CanBeWritten(m, ps);
    Segments(m);
    FirstChoices(m, ps, code);
    CanStartARun(m, ps);
    WritableBasics(m, ps);
    ParsedIsReady(m);
    m', ps' := StepExists(m, ps, code);
    Sizes(m, ps, code, m', ps');
    HeaderStays(m, ps, code, m', ps', Parse(m).shdrs);
    InjectWriteParse(m, ps, code, m', ps');
    NothingToSurvive(m', ps', Parse(m).shdrs, Parse(m));
  }

  lemma NothingToSurvive(m: seq<byte>, ps: seq<PhdrRef>, hs: seq<ShdrRef>, p: Parsed)
    requires WriterSafe(Class64, m, ps, hs) && p.syms == []
    ensures SymbolsSurvive(Class64, m, ps, hs, p)
  {
  }

  lemma WritableBasics(m: seq<byte>, ps: seq<PhdrRef>)
    requires Writable(m, ps)
    ensures SmallBuffer(m) && Parse(m).code == Success && EHDR_LEN <= |m| && ClassOf(m) == Class64
  {
    hide Parse, WriterSafe, Coherent, SymbolsInSections, FullEntries;
  }
}
