/** Injection extends the memory image and changes nothing else in it. */
module InjectFacts {
  import opened Bytes
  import opened Layout
  import opened ParseSpec
  import opened ParseFrame
  import opened WriteSpec
  import opened InjectSpec
  import opened Loader

  /** The wrapper points at a header of the table. */
  ghost predicate OnTable(m: seq<byte>, p: PhdrRef)
    requires TableIn(m)
  {
    var base := SlotOff(m, 0);
    base <= p.p_offset && (p.p_offset - base) % 56 == 0 && (p.p_offset - base) / 56 < Phnum(m)
  }

  /** The index of the header a wrapper points at. */
  ghost function IndexOf(m: seq<byte>, p: PhdrRef): (k: nat)
    requires TableIn(m) && OnTable(m, p)
    ensures k < Phnum(m) && p.p_offset == SlotOff(m, k)
  {
    (p.p_offset - SlotOff(m, 0)) / 56
  }

  /** The list starts with the table in order and holds no wrapper of anything else. */
  ghost predicate ListOk(m: seq<byte>, ps: seq<PhdrRef>)
    requires TableIn(m)
  {
    && Phnum(m) <= |ps|
    && (forall k :: 0 <= k < Phnum(m) ==> ps[k].p_offset == SlotOff(m, k))
    && (forall i :: 0 <= i < |ps| ==> OnTable(m, ps[i]))
  }

  /** A binary the injector keeps well-formed. */
  ghost predicate Ready(m: seq<byte>, ps: seq<PhdrRef>)
  {
    TableIn(m) && LoadsOk(m) && ListOk(m, ps) && PhdrRefsIn(Class64, m, ps)
  }

  /** There is code, and the buffer and the address space have room for it. */
  ghost predicate Room(m: seq<byte>, ps: seq<PhdrRef>, code: seq<byte>)
    requires PhdrRefsIn(Class64, m, ps)
  {
    && code != []
    && PageUp(|m|) + |code| < TWO64
    && (HighestLoad(m, ps).Some? ==>
          var p := PhdrAt(Class64, m, HighestLoad(m, ps).value.p_offset);
          p.vaddr + p.memsz + 0xfff + |code| <= TWO64)
  }

  // ----- the header table after an injection -----

  lemma SlotsAfter(m: seq<byte>, m': seq<byte>, code: seq<byte>, s: nat, va: nat)
    requires TableIn(m) && s < Phnum(m) && Injected(m, m', code, SlotOff(m, s), va)
    requires va < TWO64 && |m'| < TWO64
    ensures TableIn(m') && EhdrAt(Class64, m') == EhdrAt(Class64, m)
    ensures forall k :: 0 <= k < Phnum(m) && k != s ==> Slot(m', k) == Slot(m, k)
    ensures Slot(m', s) == NewSegment(PageUp(|m|), va, |code|)
  {
    hide EhdrAt, PhdrAt, EncodePhdr64, DecodePhdr;
    PageUpMeaning(|m|);
    EhdrFrame(Class64, m, m');
    forall k | 0 <= k < Phnum(m) && k != s ensures Slot(m', k) == Slot(m, k) {
      PhdrFrame(Class64, m, m', SlotOff(m, k));
    }
    PhdrRoundTrip(NewSegment(PageUp(|m|), va, |code|));
    SlotDecodes(m', SlotOff(m, s), NewSegment(PageUp(|m|), va, |code|));
  }

  lemma SlotDecodes(m: seq<byte>, off: nat, p: Phdr)
    requires off + 56 <= |m| && m[off..off + 56] == EncodePhdr64(p)
    ensures PhdrAt(Class64, m, off) == DecodePhdr(Class64, EncodePhdr64(p))
  {
  }

  // ----- the chosen address -----

  /**
   * The chosen address is the least page boundary at or above the end of the highest
   * segment, and at or above the end of every segment.
   */
  lemma NextVaddrAboveAll(m: seq<byte>, ps: seq<PhdrRef>)
    requires Ready(m, ps) && HighestLoad(m, ps).Some?
    requires var p := PhdrAt(Class64, m, HighestLoad(m, ps).value.p_offset);
             p.vaddr + p.memsz + 0xfff < TWO64
    ensures var p := PhdrAt(Class64, m, HighestLoad(m, ps).value.p_offset);
            var va := NextVaddr(p);
            && va % 0x1000 == 0
            && (forall x: nat :: x % 0x1000 == 0 && p.vaddr + p.memsz <= x ==> va <= x)
            && (forall k :: IsLoad(m, k) ==> Slot(m, k).vaddr + Slot(m, k).memsz <= va)
  {
    hide PhdrAt, EhdrAt, HighestLoad;
    var h := HighestLoad(m, ps).value;
    var top := IndexOf(m, h);
    var p := PhdrAt(Class64, m, h.p_offset);
    var va := NextVaddr(p);
    assert IsLoad(m, top) && Slot(m, top) == p;
    HighestLoadIsHighest(m, ps);
    forall k: nat | IsLoad(m, k) ensures Slot(m, k).vaddr + Slot(m, k).memsz <= va {
      assert ps[k].p_offset == SlotOff(m, k);
      if k != top {
        assert Apart(Slot(m, k), p);
      }
    }
  }

  // ----- the image -----

  lemma LoadsAfter(m: seq<byte>, m': seq<byte>, code: seq<byte>, s: nat, va: nat)
    requires TableIn(m) && LoadsOk(m) && IsNote(m, s) && Injected(m, m', code, SlotOff(m, s), va)
    requires code != [] && va + |code| <= TWO64 && |m'| < TWO64
    requires forall k :: IsLoad(m, k) ==> Slot(m, k).vaddr + Slot(m, k).memsz <= va
    ensures TableIn(m') && LoadsOk(m')
    ensures forall k :: IsLoad(m', k) <==> IsLoad(m, k) || k == s
  {
    hide PhdrAt, EhdrAt, Slot;
    SlotsAfter(m, m', code, s, va);
    forall k: nat | IsLoad(m', k) ensures SegmentOk(m', Slot(m', k)) {
      if k != s { assert SegmentOk(m, Slot(m, k)); }
    }
    forall j: nat, k: nat | IsLoad(m', j) && IsLoad(m', k) && j != k ensures Apart(Slot(m', j), Slot(m', k)) {
    }
  }

  /** What became of address a: the code, its old byte, or the rewritten header byte it showed. */
  ghost predicate ImageStep(m: seq<byte>, m': seq<byte>, code: seq<byte>, slot: nat, va: nat, a: nat)
    requires TableIn(m) && LoadsOk(m) && TableIn(m') && LoadsOk(m')
  {
    && (va <= a < va + |code| ==> Image(m, a) == None && Image(m', a) == Some(code[a - va]))
    && (!(va <= a < va + |code|) && Image(m, a) == None ==> Image(m', a) == None)
    && (forall k :: Maps(m, k, a) ==>
          match FileByte(m, k, a)
          case None => Image(m', a) == Image(m, a)
          case Some(i) =>
            if slot <= i < slot + 56 then i < |m'| && Image(m', a) == Some(m'[i])
            else Image(m', a) == Image(m, a))
  }

  /** A segment of the original keeps mapping its addresses to the same file bytes. */
  lemma MapsKept(m: seq<byte>, m': seq<byte>, code: seq<byte>, s: nat, va: nat, k: nat, a: nat)
    requires TableIn(m) && LoadsOk(m) && IsNote(m, s) && Injected(m, m', code, SlotOff(m, s), va)
    requires code != [] && va + |code| <= TWO64 && |m'| < TWO64
    requires forall k :: IsLoad(m, k) ==> Slot(m, k).vaddr + Slot(m, k).memsz <= va
    requires Maps(m, k, a)
    ensures TableIn(m') && LoadsOk(m') && Maps(m', k, a) && FileByte(m', k, a) == FileByte(m, k, a)
  {
    hide PhdrAt, EhdrAt, Slot;
    SlotsAfter(m, m', code, s, va);
    LoadsAfter(m, m', code, s, va);
  }

  /** The new segment shows the code. */
  lemma CodeAfter(m: seq<byte>, m': seq<byte>, code: seq<byte>, s: nat, va: nat, a: nat)
    requires TableIn(m) && LoadsOk(m) && IsNote(m, s) && Injected(m, m', code, SlotOff(m, s), va)
    requires code != [] && va + |code| <= TWO64 && |m'| < TWO64
    requires forall k :: IsLoad(m, k) ==> Slot(m, k).vaddr + Slot(m, k).memsz <= va
    requires va <= a < va + |code|
    ensures TableIn(m') && LoadsOk(m') && Maps(m', s, a) && FileByte(m', s, a) == Some(PageUp(|m|) + (a - va))
    ensures Image(m, a) == None && Image(m', a) == Some(code[a - va])
  {
    hide PhdrAt, EhdrAt, Slot, Image, LoadsOk, Injected, EncodePhdr64, PageUp;
    SlotsAfter(m, m', code, s, va);
    LoadsAfter(m, m', code, s, va);
    CodeByte(m, m', code, SlotOff(m, s), va, a - va);
    ImageIs(m', s, a);
    NotMapped(m, a);
  }

  lemma CodeByte(m: seq<byte>, m': seq<byte>, code: seq<byte>, slot: nat, va: nat, x: nat)
    requires Injected(m, m', code, slot, va) && x < |code|
    ensures PageUp(|m|) + x < |m'| && m'[PageUp(|m|) + x] == code[x]
  {
    hide EncodePhdr64, PageUp;
    assert m'[PageUp(|m|) + x] == m'[PageUp(|m|)..][x];
  }

  /** The new segment is the only new mapping. */
  lemma NothingElse(m: seq<byte>, m': seq<byte>, code: seq<byte>, s: nat, va: nat, a: nat)
    requires TableIn(m) && LoadsOk(m) && IsNote(m, s) && Injected(m, m', code, SlotOff(m, s), va)
    requires code != [] && va + |code| <= TWO64 && |m'| < TWO64
    requires forall k :: IsLoad(m, k) ==> Slot(m, k).vaddr + Slot(m, k).memsz <= va
    requires TableIn(m') && LoadsOk(m')
    requires !Mapped(m, a) && !(va <= a < va + |code|)
    ensures Image(m', a) == None
  {
    hide PhdrAt, EhdrAt, Slot, Image, LoadsOk;
    SlotsAfter(m, m', code, s, va);
    LoadsAfter(m, m', code, s, va);
    assert forall k: nat :: Maps(m', k, a) ==> k == s || Maps(m, k, a);
    NotMapped(m', a);
  }

  lemma ImageAfter(m: seq<byte>, m': seq<byte>, code: seq<byte>, s: nat, va: nat, a: nat)
    requires TableIn(m) && LoadsOk(m) && IsNote(m, s) && Injected(m, m', code, SlotOff(m, s), va)
    requires code != [] && va + |code| <= TWO64 && |m'| < TWO64
    requires forall k :: IsLoad(m, k) ==> Slot(m, k).vaddr + Slot(m, k).memsz <= va
    ensures TableIn(m') && LoadsOk(m') && ImageStep(m, m', code, SlotOff(m, s), va, a)
  {
    hide PhdrAt, EhdrAt, Slot, Image, LoadsOk;
    LoadsAfter(m, m', code, s, va);
    if va <= a < va + |code| {
      CodeAfter(m, m', code, s, va, a);
    } else if Mapped(m, a) {
      var k :| Maps(m, k, a);
      ImageIs(m, k, a);
    } else {
      NothingElse(m, m', code, s, va, a);
    }
    forall k: nat | Maps(m, k, a)
      ensures Maps(m', k, a) && FileByte(m', k, a) == FileByte(m, k, a)
      ensures Image(m, a) == Some(SegByte(m, k, a)) && Image(m', a) == Some(SegByte(m', k, a))
    {
      MapsKept(m, m', code, s, va, k, a);
      ImageIs(m, k, a);
      ImageIs(m', k, a);
    }
  }

  lemma NotMapped(m: seq<byte>, a: nat)
    requires TableIn(m) && LoadsOk(m) && !Mapped(m, a)
    ensures Image(m, a) == None
  {
  }

  // ----- one successful injection -----

  /** The address the next injection uses. */
  ghost function Target(m: seq<byte>, ps: seq<PhdrRef>): (va: nat)
    requires PhdrRefsIn(Class64, m, ps) && HighestLoad(m, ps).Some?
    ensures va < TWO64
  {
    NextVaddr(PhdrAt(Class64, m, HighestLoad(m, ps).value.p_offset))
  }

  /** One successful injection of code into (m, ps). */
  ghost predicate Step(m: seq<byte>, ps: seq<PhdrRef>, code: seq<byte>, m': seq<byte>, ps': seq<PhdrRef>)
  {
    && Ready(m, ps) && Room(m, ps, code)
    && HighestLoad(m, ps).Some?
    && Outcome(m, ps, code, Success, m', ps', PageUp(|m|), Target(m, ps))
  }

  /** The index of the header a successful injection rewrites. */
  ghost function Victim(m: seq<byte>, ps: seq<PhdrRef>): (s: nat)
    requires Ready(m, ps) && FirstNote(m, ps).Some?
    ensures IsNote(m, s) && SlotOff(m, s) == FirstNote(m, ps).value.p_offset
  {
    IndexOf(m, FirstNote(m, ps).value)
  }

  lemma StepFacts(m: seq<byte>, ps: seq<PhdrRef>, code: seq<byte>, m': seq<byte>, ps': seq<PhdrRef>)
    requires Step(m, ps, code, m', ps')
    ensures FirstNote(m, ps).Some?
    ensures Injected(m, m', code, SlotOff(m, Victim(m, ps)), Target(m, ps))
    ensures ps' == ps + [NewRef(m, SlotOff(m, Victim(m, ps)))]
    ensures code != [] && Target(m, ps) + |code| <= TWO64 && |m'| < TWO64 && Target(m, ps) % 0x1000 == 0
    ensures forall k :: IsLoad(m, k) ==> Slot(m, k).vaddr + Slot(m, k).memsz <= Target(m, ps)
  {
    hide PhdrAt, EhdrAt, HighestLoad, FirstNote, Injected, NewRef, LoadsOk, ListOk;
    NextVaddrAboveAll(m, ps);
    LengthGrows(m, m', code, SlotOff(m, Victim(m, ps)), Target(m, ps));
  }

  /** The number of PT_NOTE headers among the first n. */
  ghost function Notes(m: seq<byte>, n: nat): nat
    requires TableIn(m)
  {
    if n == 0 then 0 else Notes(m, n - 1) + if IsNote(m, n - 1) then 1 else 0
  }

  lemma {:induction false} OneNoteLess(m: seq<byte>, m': seq<byte>, s: nat, n: nat)
    requires TableIn(m) && TableIn(m') && Phnum(m') == Phnum(m) && n <= Phnum(m)
    requires IsNote(m, s) && !IsNote(m', s)
    requires forall k :: 0 <= k < Phnum(m) && k != s ==> Slot(m', k) == Slot(m, k)
    ensures Notes(m', n) == Notes(m, n) - if s < n then 1 else 0
  {
    hide Slot;
    if n > 0 {
      OneNoteLess(m, m', s, n - 1);
    }
  }

  /**
   * A successful injection keeps the binary well-formed, rewrites exactly one PT_NOTE
   * header to a page-aligned segment, and extends the memory image conservatively.
   */
  lemma InjectionExtendsImage(m: seq<byte>, ps: seq<PhdrRef>, code: seq<byte>, m': seq<byte>, ps': seq<PhdrRef>)
    requires Step(m, ps, code, m', ps')
    ensures Ready(m', ps') && EhdrAt(Class64, m') == EhdrAt(Class64, m)
    ensures FirstNote(m, ps).Some?
    ensures var s := Victim(m, ps);
            && Slot(m', s) == NewSegment(PageUp(|m|), Target(m, ps), |code|)
            && Slot(m', s).vaddr % 0x1000 == Slot(m', s).offset % 0x1000
            && (forall k :: 0 <= k < Phnum(m) && k != s ==> Slot(m', k) == Slot(m, k))
            && Notes(m', Phnum(m)) == Notes(m, Phnum(m)) - 1
            && (forall a: nat :: ImageStep(m, m', code, SlotOff(m, s), Target(m, ps), a))
  {
    hide PhdrAt, EhdrAt, HighestLoad, FirstNote, LoadsOk, ImageStep, Injected;
    StepFacts(m, ps, code, m', ps');
    var s, va := Victim(m, ps), Target(m, ps);
    SlotsAfter(m, m', code, s, va);
    LoadsAfter(m, m', code, s, va);
    PageUpMeaning(|m|);
    OneNoteLess(m, m', s, Phnum(m));
    forall a: nat ensures ImageStep(m, m', code, SlotOff(m, s), va, a) {
      ImageAfter(m, m', code, s, va, a);
    }
    ListAfter(m, ps, code, m', ps');
  }

  lemma ListAfter(m: seq<byte>, ps: seq<PhdrRef>, code: seq<byte>, m': seq<byte>, ps': seq<PhdrRef>)
    requires Step(m, ps, code, m', ps')
    ensures TableIn(m') && ListOk(m', ps') && PhdrRefsIn(Class64, m', ps')
  {
    hide PhdrAt, EhdrAt, HighestLoad, FirstNote, LoadsOk, Injected;
    StepFacts(m, ps, code, m', ps');
    SlotsAfter(m, m', code, Victim(m, ps), Target(m, ps));
    PageUpMeaning(|m|);
    assert |m| <= |m'| by { LengthGrows(m, m', code, SlotOff(m, Victim(m, ps)), Target(m, ps)); }
    forall i | 0 <= i < |ps'| ensures OnTable(m', ps'[i]) && ps'[i].p_offset + 56 <= |m'| {
      if i < |ps| {
        assert ps'[i] == ps[i];
        assert OnTable(m, ps[i]);
      }
    }
  }

  lemma LengthGrows(m: seq<byte>, m': seq<byte>, code: seq<byte>, slot: nat, va: nat)
    requires Injected(m, m', code, slot, va)
    ensures |m| <= |m'| == PageUp(|m|) + |code|
  {
    PageUpMeaning(|m|);
  }

  // ----- what one success stores -----

  lemma {:induction false} FirstNoteIndex(m: seq<byte>, ps: seq<PhdrRef>) returns (i: nat)
    requires PhdrRefsIn(Class64, m, ps) && FirstNote(m, ps).Some?
    ensures i < |ps| && FirstNote(m, ps) == Some(ps[i]) && PhdrAt(Class64, m, ps[i].p_offset).ptype == 4
    ensures forall j :: 0 <= j < i ==> PhdrAt(Class64, m, ps[j].p_offset).ptype != 4
  {
    hide PhdrAt;
    if PhdrAt(Class64, m, ps[0].p_offset).ptype == 4 {
      i := 0;
    } else {
      i := FirstNoteIndex(m, ps[1..]);
      forall j | 0 <= j < i + 1 ensures PhdrAt(Class64, m, ps[j].p_offset).ptype != 4 {
        if j > 0 { assert ps[1..][j - 1] == ps[j]; }
      }
      i := i + 1;
    }
  }

  /** The header that is rewritten is the first PT_NOTE, 4, of the table. */
  lemma VictimIsFirst(m: seq<byte>, ps: seq<PhdrRef>)
    requires Ready(m, ps) && FirstNote(m, ps).Some?
    ensures var s := Victim(m, ps);
            && s < Phnum(m) && Slot(m, s).ptype == 4
            && forall k :: 0 <= k < s ==> Slot(m, k).ptype != 4
  {
    hide PhdrAt, EhdrAt, FirstNote, LoadsOk;
    var s := Victim(m, ps);
    var i := FirstNoteIndex(m, ps);
    TableWrapper(m, ps, s);
    assert i <= s;
    forall k | 0 <= k < s ensures Slot(m, k).ptype != 4 {
      TableWrapper(m, ps, k);
      if i < s { TableWrapper(m, ps, i); }
    }
  }

  /** The fields a success stores, and the wrapper it pushes. */
  lemma SuccessStores(m: seq<byte>, ps: seq<PhdrRef>, code: seq<byte>, m': seq<byte>, ps': seq<PhdrRef>)
    requires Step(m, ps, code, m', ps')
    ensures FirstNote(m, ps).Some? && TableIn(m') && Phnum(m') == Phnum(m)
    ensures var s, at := Victim(m, ps), (|m| + 4095) / 4096 * 4096;
            && Slot(m', s) == Phdr(1, 6, at, Target(m, ps), 0, |code|, |code|, 4096)
            && ps' == ps + [PhdrRef(Phnum(m) - 1, EhdrAt(Class64, m).phoff + 56 * s, at)]
            && |m'| == at + |code| && m'[at..] == code
  {
    hide PhdrAt, EhdrAt, HighestLoad, FirstNote, LoadsOk, ListOk;
    StepFacts(m, ps, code, m', ps');
    SlotsAfter(m, m', code, Victim(m, ps), Target(m, ps));
  }

  /** The result codes: ENOSYS apart, a failure is EINVAL without a PT_NOTE and -1 with one but without a PT_LOAD. */
  lemma FailureCodes(m: seq<byte>, ps: seq<PhdrRef>, code: seq<byte>, r: Code,
                     m': seq<byte>, ps': seq<PhdrRef>, offset: nat, vaddr: nat)
    requires Ready(m, ps) && Outcome(m, ps, code, r, m', ps', offset, vaddr)
    ensures r == if forall k :: 0 <= k < Phnum(m) ==> Slot(m, k).ptype != 4 then EINVAL
                 else if forall k :: 0 <= k < Phnum(m) ==> Slot(m, k).ptype != 1 then MinusOne
                 else Success
  {
    hide PhdrAt, EhdrAt, HighestLoad, FirstNote, LoadsOk, ListOk, Injected, Slot;
    FailsWhen(m, ps);
    NoNotes(m, Phnum(m));
    assert forall k :: 0 <= k < Phnum(m) ==> (IsNote(m, k) <==> Slot(m, k).ptype == 4);
    assert forall k :: 0 <= k < Phnum(m) ==> (IsLoad(m, k) <==> Slot(m, k).ptype == 1);
  }

  // ----- failing injections -----

  /** A failing injection only grows the buffer: headers, segments and image stay. */
  lemma FailureIsHarmless(m: seq<byte>, ps: seq<PhdrRef>, code: seq<byte>, r: Code,
                          m': seq<byte>, ps': seq<PhdrRef>, offset: nat, vaddr: nat)
    requires Ready(m, ps) && Outcome(m, ps, code, r, m', ps', offset, vaddr) && r != Success
    ensures Ready(m', ps') && ps' == ps && m <= m'
    ensures EhdrAt(Class64, m') == EhdrAt(Class64, m)
    ensures forall k :: 0 <= k < Phnum(m) ==> Slot(m', k) == Slot(m, k)
    ensures forall a: nat :: Image(m', a) == Image(m, a)
  {
    hide PhdrAt, EhdrAt, HighestLoad, FirstNote, Image;
    EhdrFrame(Class64, m, m');
    forall k | 0 <= k < Phnum(m) ensures Slot(m', k) == Slot(m, k) {
      PhdrFrame(Class64, m, m', SlotOff(m, k));
    }
    hide Outcome, Slot;
    forall k: nat | IsLoad(m', k) ensures SegmentOk(m', Slot(m', k)) {
      assert SegmentOk(m, Slot(m, k));
    }
    forall a: nat ensures Image(m', a) == Image(m, a) {
      SameImage(m, m', a);
    }
  }

  lemma SameImage(m: seq<byte>, m': seq<byte>, a: nat)
    requires TableIn(m) && TableIn(m') && LoadsOk(m) && LoadsOk(m') && m <= m' && Phnum(m') == Phnum(m)
    requires forall k :: 0 <= k < Phnum(m) ==> Slot(m', k) == Slot(m, k)
    ensures Image(m', a) == Image(m, a)
  {
    hide Slot, LoadsOk, EhdrAt;
    assert forall k: nat :: Maps(m', k, a) <==> Maps(m, k, a);
    if Mapped(m, a) {
      var k :| Maps(m, k, a);
      ImageIs(m, k, a);
      ImageIs(m', k, a);
    }
  }

  /** An injection fails exactly when no PT_NOTE header or no PT_LOAD header is left. */
  lemma {:induction false} FailsWhen(m: seq<byte>, ps: seq<PhdrRef>)
    requires Ready(m, ps)
    ensures FirstNote(m, ps).None? <==> Notes(m, Phnum(m)) == 0
    ensures HighestLoad(m, ps).None? <==> (forall k :: !IsLoad(m, k))
  {
    hide PhdrAt, EhdrAt, LoadsOk, ListOk, FirstNote, HighestLoad;
    NoNotes(m, Phnum(m));
    HighestLoadIsHighest(m, ps);
    if FirstNote(m, ps).Some? {
      var h := Victim(m, ps);
    } else {
      forall k | 0 <= k < Phnum(m) ensures !IsNote(m, k) {
        assert ListOk(m, ps);
        TableWrapper(m, ps, k);
      }
    }
    if HighestLoad(m, ps).Some? {
      OnTableOf(m, ps, HighestLoad(m, ps).value);
      assert IsLoad(m, IndexOf(m, HighestLoad(m, ps).value));
    } else {
      forall k: nat ensures !IsLoad(m, k) {
        if k < Phnum(m) {
          TableWrapper(m, ps, k);
        }
      }
    }
  }

  lemma TableWrapper(m: seq<byte>, ps: seq<PhdrRef>, k: nat)
    requires Ready(m, ps) && k < Phnum(m)
    ensures k < |ps| && ps[k].p_offset == SlotOff(m, k)
  {
  }

  lemma OnTableOf(m: seq<byte>, ps: seq<PhdrRef>, p: PhdrRef)
    requires Ready(m, ps) && p in ps
    ensures OnTable(m, p)
  {
  }

  lemma {:induction false} NoNotes(m: seq<byte>, n: nat)
    requires TableIn(m)
    ensures Notes(m, n) == 0 <==> forall k :: 0 <= k < n ==> !IsNote(m, k)
  {
    hide Slot, EhdrAt;
    if n > 0 {
      NoNotes(m, n - 1);
    }
  }
}
