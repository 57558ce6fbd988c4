/** What one injection does to the buffer and the program header list. */
module InjectSpec {
  import opened Bytes
  import opened Layout
  import opened ParseSpec
  import opened ParseFrame
  import opened WriteSpec

  /** n rounded up to a multiple of the page size. */
  function PageUp(n: nat): nat
  {
    (n + 0xfff) / 0x1000 * 0x1000
  }

  /** The first wrapper whose header is a PT_NOTE. */
  function FirstNote(m: seq<byte>, ps: seq<PhdrRef>): (r: Option<PhdrRef>)
    requires PhdrRefsIn(Class64, m, ps)
    ensures r.Some? ==> r.value in ps && PhdrAt(Class64, m, r.value.p_offset).ptype == PT_NOTE
    ensures r.None? ==> forall i :: 0 <= i < |ps| ==> PhdrAt(Class64, m, ps[i].p_offset).ptype != PT_NOTE
  {
    if ps == [] then None
    else if PhdrAt(Class64, m, ps[0].p_offset).ptype == PT_NOTE then Some(ps[0])
    else FirstNote(m, ps[1..])
  }

  /** The first PT_LOAD wrapper of greatest p_vaddr. */
  function HighestLoad(m: seq<byte>, ps: seq<PhdrRef>): (r: Option<PhdrRef>)
    requires PhdrRefsIn(Class64, m, ps)
    ensures r.Some? ==> r.value in ps && PhdrAt(Class64, m, r.value.p_offset).ptype == PT_LOAD
  {
    if ps == [] then None
    else
      var prev := HighestLoad(m, ps[..|ps| - 1]);
      var p := PhdrAt(Class64, m, ps[|ps| - 1].p_offset);
      if p.ptype == PT_LOAD && (prev.None? || PhdrAt(Class64, m, prev.value.p_offset).vaddr < p.vaddr)
      then Some(ps[|ps| - 1]) else prev
  }

  /** No PT_LOAD wrapper has a greater p_vaddr. */
  lemma {:induction false} HighestLoadIsHighest(m: seq<byte>, ps: seq<PhdrRef>)
    requires PhdrRefsIn(Class64, m, ps)
    ensures forall i :: 0 <= i < |ps| && PhdrAt(Class64, m, ps[i].p_offset).ptype == PT_LOAD ==>
              && HighestLoad(m, ps).Some?
              && PhdrAt(Class64, m, ps[i].p_offset).vaddr <= PhdrAt(Class64, m, HighestLoad(m, ps).value.p_offset).vaddr
  {
    hide PhdrAt;
    if ps != [] {
      HighestLoadIsHighest(m, ps[..|ps| - 1]);
    }
  }

  /** Of several PT_LOAD wrappers, 1, with the greatest p_vaddr the first is chosen. */
  lemma {:induction false} HighestLoadIndex(m: seq<byte>, ps: seq<PhdrRef>) returns (i: nat)
    requires PhdrRefsIn(Class64, m, ps) && HighestLoad(m, ps).Some?
    ensures i < |ps| && HighestLoad(m, ps) == Some(ps[i]) && PhdrAt(Class64, m, ps[i].p_offset).ptype == 1
    ensures forall j :: 0 <= j < |ps| && PhdrAt(Class64, m, ps[j].p_offset).ptype == 1 ==>
              if j < i then PhdrAt(Class64, m, ps[j].p_offset).vaddr < PhdrAt(Class64, m, ps[i].p_offset).vaddr
              else PhdrAt(Class64, m, ps[j].p_offset).vaddr <= PhdrAt(Class64, m, ps[i].p_offset).vaddr
  {
    hide PhdrAt;
    var n := |ps| - 1;
    HighestLoadIsHighest(m, ps);
    HighestLoadIsHighest(m, ps[..n]);
    if HighestLoad(m, ps) == HighestLoad(m, ps[..n]) {
      i := HighestLoadIndex(m, ps[..n]);
      assert ps[..n][i] == ps[i];
      assert forall j :: 0 <= j < n ==> ps[..n][j] == ps[j];
    } else {
      i := n;
      assert forall j :: 0 <= j < n ==> ps[..n][j] == ps[j];
    }
  }

  /** The address behind a segment, in wrapping 64-bit arithmetic. */
  lemma NextVaddrIs(p: Phdr)
    requires p.vaddr < TWO64 && p.memsz < TWO64
    ensures NextVaddr(p) == (p.vaddr + p.memsz + 4095) % 0x1_0000_0000_0000_0000 / 4096 * 4096
  {
  }

  /** End of the segment, rounded up with shifts, in 64-bit arithmetic. */
  function NextVaddr(p: Phdr): (v: nat)
    requires p.vaddr < TWO64 && p.memsz < TWO64
    ensures v < TWO64
  {
    AddW(Class64, AddW(Class64, p.vaddr, p.memsz), 0xfff) / 0x1000 * 0x1000
  }

  /** The header of the injected segment. */
  function NewSegment(offset: nat, vaddr: nat, len: nat): Phdr
  {
    Phdr(PT_LOAD, PF_R + PF_W, offset, vaddr, 0, len, len, 0x1000)
  }

  /** The wrapper pushed for the injected segment; its index is e_phnum - 1 in 16 bits. */
  function NewRef(m: seq<byte>, slot: nat): PhdrRef
    requires EHDR_LEN <= |m|
  {
    PhdrRef((EhdrAt(Class64, m).phnum + 0xffff) % 0x1_0000, slot, PageUp(|m|))
  }

  lemma SpliceJoin(m: seq<byte>, off: nat, x: seq<byte>, y: seq<byte>)
    requires off + |x| + |y| <= |m|
    ensures Splice(Splice(m, off, x), off + |x|, y) == Splice(m, off, x + y)
  {
  }

  /** m' is m with some padding up to the next page and then the code. */
  ghost predicate Appended(m: seq<byte>, m': seq<byte>, code: seq<byte>)
  {
    && |m'| == PageUp(|m|) + |code|
    && m <= m'
    && m'[PageUp(|m|)..] == code
  }

  /** m' is m with padding and code appended, and one program header rewritten. */
  ghost predicate Injected(m: seq<byte>, m': seq<byte>, code: seq<byte>, slot: nat, vaddr: nat)
  {
    && |m'| == PageUp(|m|) + |code|
    && slot + 56 <= |m|
    && m'[slot..slot + 56] == EncodePhdr64(NewSegment(PageUp(|m|), vaddr, |code|))
    && (forall i :: 0 <= i < |m| && !(slot <= i < slot + 56) ==> m'[i] == m[i])
    && m'[PageUp(|m|)..] == code
  }

  lemma SpliceAppended(m: seq<byte>, part: seq<byte>, code: seq<byte>)
    requires |part| == PageUp(|m|) + |code| && |m| <= PageUp(|m|)
    requires forall i :: 0 <= i < |m| ==> part[i] == m[i]
    ensures Appended(m, Splice(part, PageUp(|m|), code), code)
  {
    hide PageUp;
    var g := Splice(part, PageUp(|m|), code);
    assert g[PageUp(|m|)..] == g[PageUp(|m|)..PageUp(|m|) + |code|];
  }

  lemma RewriteSlot(m: seq<byte>, g: seq<byte>, code: seq<byte>, slot: nat, vaddr: nat)
    requires Appended(m, g, code) && slot + 56 <= |m|
    ensures slot + 56 <= |g|
    ensures Injected(m, Splice(g, slot, EncodePhdr64(NewSegment(PageUp(|m|), vaddr, |code|))), code, slot, vaddr)
  {
    hide EncodePhdr64;
    PageUpMeaning(|m|);
    var r := Splice(g, slot, EncodePhdr64(NewSegment(PageUp(|m|), vaddr, |code|)));
    assert r[PageUp(|m|)..] == g[PageUp(|m|)..];
  }

  /** The result and the state elftool_transform_segment_injection leaves on a 64-bit binary. */
  ghost predicate Outcome(m: seq<byte>, ps: seq<PhdrRef>, code: seq<byte>,
                          r: Code, m': seq<byte>, ps': seq<PhdrRef>, offset: nat, vaddr: nat)
    requires PhdrRefsIn(Class64, m, ps) && EHDR_LEN <= |m|
  {
    && offset == PageUp(|m|)
    && (FirstNote(m, ps).None? ==> r == EINVAL)
    && (FirstNote(m, ps).Some? && HighestLoad(m, ps).None? ==> r == MinusOne)
    && (FirstNote(m, ps).Some? && HighestLoad(m, ps).Some? ==>
          && r == Success
          && var slot := FirstNote(m, ps).value.p_offset;
          && vaddr == NextVaddr(PhdrAt(Class64, m, HighestLoad(m, ps).value.p_offset))
          && Injected(m, m', code, slot, vaddr)
          && ps' == ps + [NewRef(m, slot)])
    && (r != Success ==> Appended(m, m', code) && ps' == ps)
  }

  lemma OutcomeOfFailure(m: seq<byte>, ps: seq<PhdrRef>, code: seq<byte>, g: seq<byte>, vaddr: nat)
    requires PhdrRefsIn(Class64, m, ps) && EHDR_LEN <= |m| && Appended(m, g, code)
    ensures FirstNote(m, ps).None? ==> Outcome(m, ps, code, EINVAL, g, ps, PageUp(|m|), vaddr)
    ensures FirstNote(m, ps).Some? && HighestLoad(m, ps).None? ==>
              Outcome(m, ps, code, MinusOne, g, ps, PageUp(|m|), vaddr)
  {
  }

  lemma OutcomeOfSuccess(m: seq<byte>, ps: seq<PhdrRef>, code: seq<byte>, m': seq<byte>, vaddr: nat)
    requires PhdrRefsIn(Class64, m, ps) && EHDR_LEN <= |m|
    requires FirstNote(m, ps).Some? && HighestLoad(m, ps).Some?
    requires vaddr == NextVaddr(PhdrAt(Class64, m, HighestLoad(m, ps).value.p_offset))
    requires Injected(m, m', code, FirstNote(m, ps).value.p_offset, vaddr)
    ensures var slot := FirstNote(m, ps).value.p_offset;
            Outcome(m, ps, code, Success, m', ps + [NewRef(m, slot)],
                    PageUp(|m|), vaddr)
  {
  }

  lemma NoteSlotInside(m: seq<byte>, ps: seq<PhdrRef>)
    requires PhdrRefsIn(Class64, m, ps) && FirstNote(m, ps).Some?
    ensures FirstNote(m, ps).value.p_offset + 56 <= |m|
  {
  }

  lemma PageUpMeaning(n: nat)
    ensures n <= PageUp(n) < n + 0x1000 && PageUp(n) % 0x1000 == 0
  {
  }

  /** Appending changes neither choice. */
  lemma {:induction false} AppendFrame(m: seq<byte>, g: seq<byte>, ps: seq<PhdrRef>)
    requires PhdrRefsIn(Class64, m, ps) && m <= g
    ensures PhdrRefsIn(Class64, g, ps)
    ensures FirstNote(g, ps) == FirstNote(m, ps)
    ensures HighestLoad(g, ps) == HighestLoad(m, ps)
    ensures forall i :: 0 <= i < |ps| ==> PhdrAt(Class64, g, ps[i].p_offset) == PhdrAt(Class64, m, ps[i].p_offset)
    ensures EHDR_LEN <= |m| ==> EhdrAt(Class64, g) == EhdrAt(Class64, m)
  {
    hide PhdrAt, EhdrAt;
    forall i | 0 <= i < |ps| ensures PhdrAt(Class64, g, ps[i].p_offset) == PhdrAt(Class64, m, ps[i].p_offset) {
      PhdrFrame(Class64, m, g, ps[i].p_offset);
    }
    if EHDR_LEN <= |m| {
      EhdrFrame(Class64, m, g);
    }
    ChoicesFrame(m, g, ps);
  }

  lemma {:induction false} ChoicesFrame(m: seq<byte>, g: seq<byte>, ps: seq<PhdrRef>)
    requires PhdrRefsIn(Class64, m, ps) && PhdrRefsIn(Class64, g, ps)
    requires forall i :: 0 <= i < |ps| ==> PhdrAt(Class64, g, ps[i].p_offset) == PhdrAt(Class64, m, ps[i].p_offset)
    ensures FirstNote(g, ps) == FirstNote(m, ps)
    ensures HighestLoad(g, ps) == HighestLoad(m, ps)
  {
    hide PhdrAt;
    if ps != [] {
      ChoicesFrame(m, g, ps[1..]);
      ChoicesFrame(m, g, ps[..|ps| - 1]);
    }
  }
}
