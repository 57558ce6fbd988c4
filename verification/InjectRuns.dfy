/** Safety over any run of successful injections. */
module InjectRuns {
  import opened Bytes
  import opened Layout
  import opened ParseSpec
  import opened WriteSpec
  import opened InjectSpec
  import opened Loader
  import opened InjectFacts

  datatype Bin = Bin(m: seq<byte>, ps: seq<PhdrRef>)

  /** Successful injections of codes[0], codes[1], ... one after the other. */
  ghost predicate Run(bs: seq<Bin>, codes: seq<seq<byte>>)
  {
    && |bs| == |codes| + 1
    && Ready(bs[0].m, bs[0].ps)
    && forall i {:trigger codes[i]} :: 0 <= i < |codes| ==>
         Step(bs[i].m, bs[i].ps, codes[i], bs[i + 1].m, bs[i + 1].ps)
  }

  /** The byte behind the address is not part of the program header table. */
  ghost predicate OutsideTable(m: seq<byte>, fb: Option<nat>)
    requires TableIn(m)
  {
    fb.Some? ==> !(SlotOff(m, 0) <= fb.value < SlotOff(m, Phnum(m)))
  }

  /**
   * Along a run every binary is well-formed (segments stay disjoint), the ELF header is
   * unchanged, and each step uses up exactly one PT_NOTE header.
   */
  lemma {:induction false} RunSafety(bs: seq<Bin>, codes: seq<seq<byte>>, i: nat)
    requires Run(bs, codes) && i <= |codes|
    ensures Ready(bs[i].m, bs[i].ps) && TableIn(bs[i].m) && TableIn(bs[0].m)
    ensures EhdrAt(Class64, bs[i].m) == EhdrAt(Class64, bs[0].m)
    ensures Notes(bs[i].m, Phnum(bs[0].m)) == Notes(bs[0].m, Phnum(bs[0].m)) - i
  {
    hide EhdrAt, Run, Step, Notes, Ready, TableIn;
    RunStart(bs, codes);
    if i > 0 {
      RunSafety(bs, codes, i - 1);
      RunStep(bs, codes, i - 1);
      StepSafety(bs[i - 1], codes[i - 1], bs[i]);
    }
  }

  lemma RunStart(bs: seq<Bin>, codes: seq<seq<byte>>)
    requires Run(bs, codes)
    ensures |bs| == |codes| + 1 && Ready(bs[0].m, bs[0].ps) && TableIn(bs[0].m)
  {
    hide Ready, Step;
    ReadyTable(bs[0]);
  }

  lemma RunStep(bs: seq<Bin>, codes: seq<seq<byte>>, i: nat)
    requires Run(bs, codes) && i < |codes|
    ensures |bs| == |codes| + 1 && Step(bs[i].m, bs[i].ps, codes[i], bs[i + 1].m, bs[i + 1].ps)
  {
    hide Ready, Step;
    var code := codes[i];
  }

  lemma ReadyTable(b: Bin)
    requires Ready(b.m, b.ps)
    ensures TableIn(b.m)
  {
  }

  lemma StepSafety(b: Bin, code: seq<byte>, b': Bin)
    requires Step(b.m, b.ps, code, b'.m, b'.ps)
    ensures Ready(b.m, b.ps) && Ready(b'.m, b'.ps) && TableIn(b.m) && TableIn(b'.m)
    ensures EhdrAt(Class64, b'.m) == EhdrAt(Class64, b.m)
    ensures Notes(b'.m, Phnum(b.m)) == Notes(b.m, Phnum(b.m)) - 1
  {
    hide EhdrAt, Notes, Slot, ImageStep, LoadsOk, ListOk, PhdrRefsIn, Outcome, Room;
    InjectionExtendsImage(b.m, b.ps, code, b'.m, b'.ps);
  }

  lemma UntouchedByte(m: seq<byte>, m': seq<byte>, code: seq<byte>, s: nat, va: nat, k: nat, a: nat)
    requires TableIn(m) && LoadsOk(m) && TableIn(m') && LoadsOk(m') && s < Phnum(m)
    requires ImageStep(m, m', code, SlotOff(m, s), va, a)
    requires Maps(m, k, a) && OutsideTable(m, FileByte(m, k, a))
    ensures Image(m', a) == Image(m, a)
  {
    hide EhdrAt, PhdrAt, LoadsOk, Image;
  }

  /** One step keeps a mapping whose file byte is outside the header table. */
  lemma StepKeeps(b: Bin, code: seq<byte>, b': Bin, k: nat, a: nat)
    requires Step(b.m, b.ps, code, b'.m, b'.ps)
    requires Maps(b.m, k, a) && OutsideTable(b.m, FileByte(b.m, k, a))
    ensures TableIn(b'.m) && LoadsOk(b'.m)
    ensures Maps(b'.m, k, a) && FileByte(b'.m, k, a) == FileByte(b.m, k, a) && OutsideTable(b'.m, FileByte(b'.m, k, a))
    ensures Slot(b'.m, k) == Slot(b.m, k) && Image(b'.m, a) == Image(b.m, a)
  {
    hide EhdrAt, PhdrAt, LoadsOk, ListOk, Image, ImageStep, FirstNote, HighestLoad, Injected;
    StepFacts(b.m, b.ps, code, b'.m, b'.ps);
    hide Step, Outcome, Room;
    var s, va := Victim(b.m, b.ps), Target(b.m, b.ps);
    SlotsAfter(b.m, b'.m, code, s, va);
    MapsKept(b.m, b'.m, code, s, va, k, a);
    ImageAfter(b.m, b'.m, code, s, va, a);
    UntouchedByte(b.m, b'.m, code, s, va, k, a);
  }

  /** Mappings and bytes outside the header table survive the rest of the run. */
  lemma {:induction false} RunKeeps(bs: seq<Bin>, codes: seq<seq<byte>>, i: nat, j: nat, k: nat, a: nat)
    requires Run(bs, codes) && i <= j <= |codes|
    requires TableIn(bs[i].m) && LoadsOk(bs[i].m) && TableIn(bs[j].m) && LoadsOk(bs[j].m)
    requires Maps(bs[i].m, k, a) && OutsideTable(bs[i].m, FileByte(bs[i].m, k, a))
    ensures Maps(bs[j].m, k, a) && FileByte(bs[j].m, k, a) == FileByte(bs[i].m, k, a)
    ensures Slot(bs[j].m, k) == Slot(bs[i].m, k)
    ensures Image(bs[j].m, a) == Image(bs[i].m, a)
    decreases j - i
  {
    hide EhdrAt, PhdrAt, LoadsOk, ListOk, Image, Slot, FileByte, Maps, Ready, Step, OutsideTable;
    if i < j {
      assert Step(bs[i].m, bs[i].ps, codes[i], bs[i + 1].m, bs[i + 1].ps);
      StepKeeps(bs[i], codes[i], bs[i + 1], k, a);
      RunKeeps(bs, codes, i + 1, j, k, a);
    }
  }

  /** After i steps the first i PT_NOTE headers of the table are used up. */
  lemma {:induction false} NotesUsedUp(bs: seq<Bin>, codes: seq<seq<byte>>, i: nat, n: nat)
    requires Run(bs, codes) && i <= |codes|
    ensures TableIn(bs[0].m) && TableIn(bs[i].m) && Phnum(bs[i].m) == Phnum(bs[0].m)
    ensures n <= Phnum(bs[0].m) ==>
              var before := Notes(bs[0].m, n); Notes(bs[i].m, n) == if before < i then 0 else before - i
  {
    hide EhdrAt, Run, Step, Notes, Ready, TableIn;
    RunStart(bs, codes);
    RunSafety(bs, codes, i);
    if i > 0 {
      NotesUsedUp(bs, codes, i - 1, n);
      RunStep(bs, codes, i - 1);
      if n <= Phnum(bs[0].m) {
        StepUsesFirst(bs[i - 1], codes[i - 1], bs[i], n);
      }
    }
  }

  lemma StepUsesFirst(b: Bin, code: seq<byte>, b': Bin, n: nat)
    requires Step(b.m, b.ps, code, b'.m, b'.ps) && n <= Phnum(b.m)
    ensures TableIn(b'.m) && Notes(b'.m, n) == if Notes(b.m, n) == 0 then 0 else Notes(b.m, n) - 1
  {
    hide EhdrAt, PhdrAt, ListOk, LoadsOk, FirstNote, HighestLoad, Injected, Outcome, Room, Slot, Notes;
    StepFacts(b.m, b.ps, code, b'.m, b'.ps);
    var s := Victim(b.m, b.ps);
    SlotsAfter(b.m, b'.m, code, s, Target(b.m, b.ps));
    hide Step;
    OneNoteLess(b.m, b'.m, s, n);
    VictimIsFirst(b.m, b.ps);
    NoNotes(b.m, n);
  }

  /** Step i rewrites the i-th PT_NOTE header, 4, of the original table, counted from 0. */
  lemma RunVictims(bs: seq<Bin>, codes: seq<seq<byte>>, i: nat)
    requires Run(bs, codes) && i < |codes|
    ensures Ready(bs[i].m, bs[i].ps) && FirstNote(bs[i].m, bs[i].ps).Some? && TableIn(bs[0].m)
    ensures var s := Victim(bs[i].m, bs[i].ps);
            && s < Phnum(bs[0].m) && Slot(bs[0].m, s).ptype == 4 && Notes(bs[0].m, s) == i
  {
    hide EhdrAt, PhdrAt, Run, FirstNote, HighestLoad, LoadsOk, ListOk, Outcome, Room, Slot, Injected, PhdrRefsIn;
    RunStart(bs, codes);
    var b := bs[i];
    RunStep(bs, codes, i);
    RunSafety(bs, codes, i);
    StepFacts(b.m, b.ps, codes[i], bs[i + 1].m, bs[i + 1].ps);
    hide Step;
    var s := Victim(b.m, b.ps);
    VictimIsFirst(b.m, b.ps);
    NoNotes(b.m, s);
    NotesUsedUp(bs, codes, i, s);
    NotesUsedUp(bs, codes, i, s + 1);
  }

  /** Address a is one of the addresses of the code injected into b. */
  ghost predicate InCode(b: Bin, code: seq<byte>, a: nat)
  {
    && PhdrRefsIn(Class64, b.m, b.ps) && HighestLoad(b.m, b.ps).Some?
    && Target(b.m, b.ps) <= a < Target(b.m, b.ps) + |code|
  }

  ghost predicate OutsideCodes(bs: seq<Bin>, codes: seq<seq<byte>>, i: nat, a: nat)
    requires |bs| == |codes| + 1 && i <= |codes|
  {
    forall j :: 0 <= j < i ==> !InCode(bs[j], codes[j], a)
  }

  lemma StepStaysUnmapped(b: Bin, code: seq<byte>, b': Bin, a: nat)
    requires Step(b.m, b.ps, code, b'.m, b'.ps) && !Mapped(b.m, a) && !InCode(b, code, a)
    ensures TableIn(b'.m) && LoadsOk(b'.m) && !Mapped(b'.m, a)
  {
    hide EhdrAt, PhdrAt, ListOk, Image, FirstNote, HighestLoad, Injected, Outcome, Room, LoadsOk, Slot;
    StepFacts(b.m, b.ps, code, b'.m, b'.ps);
    var s, va := Victim(b.m, b.ps), Target(b.m, b.ps);
    SlotsAfter(b.m, b'.m, code, s, va);
    LoadsAfter(b.m, b'.m, code, s, va);
    assert forall k: nat :: Maps(b'.m, k, a) ==> k == s || Maps(b.m, k, a);
  }

  /** Over a run only the addresses of the codes become mapped. */
  lemma {:induction false} RunStaysUnmapped(bs: seq<Bin>, codes: seq<seq<byte>>, i: nat, a: nat)
    requires Run(bs, codes) && i <= |codes| && TableIn(bs[0].m) && !Mapped(bs[0].m, a)
    requires OutsideCodes(bs, codes, i, a)
    ensures TableIn(bs[i].m) && !Mapped(bs[i].m, a)
  {
    hide EhdrAt, Mapped, Step, Ready, InCode;
    if i > 0 {
      RunStaysUnmapped(bs, codes, i - 1, a);
      RunStep(bs, codes, i - 1);
      StepStaysUnmapped(bs[i - 1], codes[i - 1], bs[i], a);
    }
  }

  /**
   * The i-th injected segment is page-aligned, lies above every segment that was there,
   * and shows its code from then on.
   */
  lemma InjectedCodeStays(bs: seq<Bin>, codes: seq<seq<byte>>, i: nat, j: nat, x: nat)
    requires Run(bs, codes) && i < j <= |codes| && x < |codes[i]|
    ensures Ready(bs[i].m, bs[i].ps) && Ready(bs[j].m, bs[j].ps)
    ensures FirstNote(bs[i].m, bs[i].ps).Some? && HighestLoad(bs[i].m, bs[i].ps).Some?
    ensures var s, va := Victim(bs[i].m, bs[i].ps), Target(bs[i].m, bs[i].ps);
            && s < Phnum(bs[j].m)
            && Slot(bs[j].m, s) == NewSegment(PageUp(|bs[i].m|), va, |codes[i]|)
            && va % 0x1000 == 0 && PageUp(|bs[i].m|) % 0x1000 == 0
            && (forall k :: IsLoad(bs[i].m, k) ==> Slot(bs[i].m, k).vaddr + Slot(bs[i].m, k).memsz <= va)
            && Image(bs[j].m, va + x) == Some(codes[i][x])
  {
    hide EhdrAt, PhdrAt, LoadsOk, ListOk, Image, ImageStep, HighestLoad, FirstNote, Injected, Outcome;
    RunSafety(bs, codes, i);
    RunSafety(bs, codes, i + 1);
    RunSafety(bs, codes, j);
    var b, b', code := bs[i], bs[i + 1], codes[i];
    assert Step(b.m, b.ps, code, b'.m, b'.ps);
    StepFacts(b.m, b.ps, code, b'.m, b'.ps);
    hide Step;
    var s, va := Victim(b.m, b.ps), Target(b.m, b.ps);
    PageUpMeaning(|b.m|);
    SlotsAfter(b.m, b'.m, code, s, va);
    CodeAfter(b.m, b'.m, code, s, va, va + x);
    RunKeeps(bs, codes, i + 1, j, s, va + x);
  }

  /** After any run, the next injection succeeds exactly while a PT_NOTE header is left. */
  lemma NextFailsWhenExhausted(bs: seq<Bin>, codes: seq<seq<byte>>, code: seq<byte>,
                               r: Code, m': seq<byte>, ps': seq<PhdrRef>, offset: nat, vaddr: nat)
    requires Run(bs, codes) && (exists k :: IsLoad(bs[0].m, k))
    requires var b := bs[|codes|];
             PhdrRefsIn(Class64, b.m, b.ps) && EHDR_LEN <= |b.m| && Outcome(b.m, b.ps, code, r, m', ps', offset, vaddr)
    ensures r == Success <==> |codes| < Notes(bs[0].m, Phnum(bs[0].m))
    ensures r != Success ==> r == EINVAL
  {
    hide EhdrAt, PhdrAt, LoadsOk, ListOk, HighestLoad, FirstNote, Step;
    var b := bs[|codes|];
    RunSafety(bs, codes, |codes|);
    LoadsRemain(bs, codes, |codes|);
    FailsWhen(b.m, b.ps);
  }

  lemma {:induction false} LoadsRemain(bs: seq<Bin>, codes: seq<seq<byte>>, i: nat)
    requires Run(bs, codes) && i <= |codes|
    requires exists k :: IsLoad(bs[0].m, k)
    ensures TableIn(bs[i].m) && exists k :: IsLoad(bs[i].m, k)
  {
    hide EhdrAt, PhdrAt, LoadsOk, ListOk, HighestLoad, FirstNote, Slot, Outcome;
    if i > 0 {
      LoadsRemain(bs, codes, i - 1);
      var b, b', code := bs[i - 1], bs[i], codes[i - 1];
      StepFacts(b.m, b.ps, code, b'.m, b'.ps);
      SlotsAfter(b.m, b'.m, code, Victim(b.m, b.ps), Target(b.m, b.ps));
      LoadsAfter(b.m, b'.m, code, Victim(b.m, b.ps), Target(b.m, b.ps));
      assert IsLoad(b'.m, Victim(b.m, b.ps));
    }
  }
}
