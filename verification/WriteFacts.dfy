/** Which bytes of the buffer a written file keeps, and when it parses back. */
module WriteFacts {
  import opened Bytes
  import opened Layout
  import opened ParseSpec
  import opened ParseFrame
  import opened WriteSpec

  ghost predicate CoveredBy(cs: seq<Chunk>, i: nat)
  {
    exists j :: 0 <= j < |cs| && Covers(cs[j], i)
  }

  /** Some write at or after j puts byte i of the buffer at offset i. */
  ghost predicate Restored(cs: seq<Chunk>, j: nat, i: nat)
  {
    exists k :: j <= k < |cs| && Covers(cs[k], i) && cs[k].src == cs[k].dst
  }

  /** The last write that covers i. */
  function LastWriter(cs: seq<Chunk>, i: nat): Option<Chunk>
  {
    if cs == [] then None
    else if Covers(cs[|cs| - 1], i) then Some(cs[|cs| - 1])
    else LastWriter(cs[..|cs| - 1], i)
  }

  lemma {:induction false} LastWriterIndex(cs: seq<Chunk>, i: nat) returns (j: nat)
    requires LastWriter(cs, i).Some?
    ensures j < |cs| && cs[j] == LastWriter(cs, i).value && Covers(cs[j], i)
    ensures forall k :: j < k < |cs| ==> !Covers(cs[k], i)
  {
    var n := |cs| - 1;
    if Covers(cs[n], i) {
      j := n;
    } else {
      j := LastWriterIndex(cs[..n], i);
      forall k | j < k < |cs| ensures !Covers(cs[k], i) {
        if k < n { assert cs[..n][k] == cs[k]; }
      }
    }
  }

  lemma {:induction false} NoLastWriter(cs: seq<Chunk>, i: nat)
    requires LastWriter(cs, i).None?
    ensures forall k :: 0 <= k < |cs| ==> !Covers(cs[k], i)
  {
    if cs != [] {
      var n := |cs| - 1;
      NoLastWriter(cs[..n], i);
      forall k | 0 <= k < |cs| ensures !Covers(cs[k], i) {
        if k < n { assert cs[..n][k] == cs[k]; }
      }
    }
  }

  lemma {:induction false} WrittenReaches(f: seq<byte>, m: seq<byte>, cs: seq<Chunk>, i: nat)
    requires ChunksIn(m, cs) && LastWriter(cs, i).Some?
    ensures i < |Replay(f, m, cs)|
  {
    hide Overlay;
    if !Covers(cs[|cs| - 1], i) {
      WrittenReaches(f, m, cs[..|cs| - 1], i);
    }
  }

  /** The last write to an offset decides its byte; a gap reads as zero. */
  lemma {:induction false} LastWriterWins(f: seq<byte>, m: seq<byte>, cs: seq<Chunk>, i: nat)
    requires ChunksIn(m, cs) && i < |Replay(f, m, cs)|
    ensures match LastWriter(cs, i)
            case None => Replay(f, m, cs)[i] == if i < |f| then f[i] else 0
            case Some(w) => w.dst <= i && w.src + (i - w.dst) < |m| && Replay(f, m, cs)[i] == m[w.src + (i - w.dst)]
  {
    hide Overlay;
    if cs != [] {
      var front := cs[..|cs| - 1];
      if i < |Replay(f, m, front)| {
        LastWriterWins(f, m, front, i);
      } else if LastWriter(front, i).Some? {
        WrittenReaches(f, m, front, i);
      }
    }
  }

  /**
   * When every write that covers i is followed by (or is) one that restores i, the pass
   * leaves the buffer's own byte there; an uncovered byte stays as it was.
   */
  lemma ReplayAt(f: seq<byte>, m: seq<byte>, cs: seq<Chunk>, i: nat)
    requires ChunksIn(m, cs) && i < |Replay(f, m, cs)|
    requires forall j :: 0 <= j < |cs| && Covers(cs[j], i) ==> Restored(cs, j, i)
    ensures if CoveredBy(cs, i) then i < |m| && Replay(f, m, cs)[i] == m[i]
            else Replay(f, m, cs)[i] == if i < |f| then f[i] else 0
  {
    hide Replay;
    LastWriterWins(f, m, cs, i);
    if LastWriter(cs, i).None? {
      NoLastWriter(cs, i);
    } else {
      var j := LastWriterIndex(cs, i);
      assert Restored(cs, j, i);
    }
  }

  // ----- wrapper lists the library can hold -----

  /** A later (or the same) wrapper of the same header knows its content offset. */
  ghost predicate FreshAlias(c: Class, m: seq<byte>, ps: seq<PhdrRef>, k: nat)
    requires PhdrRefsIn(c, m, ps) && k < |ps|
  {
    exists j :: k <= j < |ps| && ps[j].p_offset == ps[k].p_offset
                && ps[j].mem_offset == PhdrAt(c, m, ps[j].p_offset).offset
  }

  /**
   * The wrapper lists match the buffer: sections as parsed; program headers in table
   * order, possibly followed by further wrappers of the same headers, of which the
   * last one is up to date.
   */
  ghost predicate Coherent(c: Class, m: seq<byte>, ps: seq<PhdrRef>, hs: seq<ShdrRef>)
  {
    && EHDR_LEN <= |m| && PhdrRefsIn(c, m, ps)
    && var e := EhdrAt(c, m);
    && ShdrsIn(c, m, e.shnum) && hs == ShdrRefs(c, m, e.shnum)
    && e.phnum <= |ps|
    && (forall k :: 0 <= k < e.phnum ==> ps[k].p_offset == EntryOff(e.phoff, e.phentsize, k))
    && (forall k :: 0 <= k < |ps| ==> FreshAlias(c, m, ps, k))
  }

  ghost predicate InPhdrTable(c: Class, m: seq<byte>, i: nat)
    requires EHDR_LEN <= |m|
  {
    EhdrAt(c, m).phoff <= i < EntryOff(EhdrAt(c, m).phoff, EhdrAt(c, m).phentsize, EhdrAt(c, m).phnum)
  }

  /** The file bytes the headers of appended wrappers are written to, behind the table. */
  ghost predicate InExtraSlots(c: Class, m: seq<byte>, ps: seq<PhdrRef>, i: nat)
    requires EHDR_LEN <= |m|
  {
    var e := EhdrAt(c, m);
    EntryOff(e.phoff, e.phentsize, e.phnum) <= i < EntryOff(e.phoff, e.phentsize, |ps|)
  }

  /** File byte i belongs to the slot of appended wrapper k. */
  ghost predicate InExtraSlot(c: Class, m: seq<byte>, ps: seq<PhdrRef>, k: nat, i: nat)
    requires EHDR_LEN <= |m|
  {
    var e := EhdrAt(c, m);
    e.phnum <= k < |ps| && EntryOff(e.phoff, e.phentsize, k) <= i < EntryOff(e.phoff, e.phentsize, k) + e.phentsize
  }

  /** b is the byte of wrapper k's header that goes to file byte i. */
  ghost predicate ExtraByte(c: Class, m: seq<byte>, ps: seq<PhdrRef>, k: nat, i: nat, b: byte)
    requires EHDR_LEN <= |m| && InExtraSlot(c, m, ps, k, i)
  {
    var from := ps[k].p_offset + (i - EntryOff(EhdrAt(c, m).phoff, EhdrAt(c, m).phentsize, k));
    from < |m| && b == m[from]
  }

  /** Byte i belongs to a table or to the content of a section or segment. */
  ghost predicate Kept(c: Class, m: seq<byte>, ps: seq<PhdrRef>, hs: seq<ShdrRef>, i: nat)
    requires WriterSafe(c, m, ps, hs)
  {
    || InPhdrTable(c, m, i)
    || CoveredBy(ShdrTableWrites(c, m, hs), i)
    || CoveredBy(SectionWrites(c, m, hs), i)
    || CoveredBy(SegmentWrites(c, m, ps), i)
  }

  lemma {:induction false} EntryOfOffset(base: nat, ent: nat, n: nat, i: nat) returns (k: nat)
    requires base <= i < EntryOff(base, ent, n)
    ensures k < n && EntryOff(base, ent, k) <= i < EntryOff(base, ent, k) + ent
  {
    assert n > 0 by { assert EntryOff(base, ent, 0) == base; }
    EntryOffStep(base, ent, n - 1);
    if EntryOff(base, ent, n - 1) <= i {
      k := n - 1;
    } else {
      k := EntryOfOffset(base, ent, n - 1, i);
    }
  }

  // ----- the passes, one by one -----

  lemma PhdrTablePass(f: seq<byte>, c: Class, m: seq<byte>, ps: seq<PhdrRef>, hs: seq<ShdrRef>, i: nat)
    requires WriterSafe(c, m, ps, hs) && Coherent(c, m, ps, hs)
    requires i < |Replay(f, m, PhdrTableWrites(c, m, ps))|
    ensures var r := Replay(f, m, PhdrTableWrites(c, m, ps));
            && (InPhdrTable(c, m, i) ==> i < |m| && r[i] == m[i])
            && (forall k :: InExtraSlot(c, m, ps, k, i) ==> ExtraByte(c, m, ps, k, i, r[i]))
            && (!InPhdrTable(c, m, i) && !InExtraSlots(c, m, ps, i) ==> r[i] == if i < |f| then f[i] else 0)
  {
    hide EhdrAt, PhdrAt, ShdrAt, Replay, LastWriter;
    var e := EhdrAt(c, m);
    var cs := PhdrTableWrites(c, m, ps);
    LastWriterWins(f, m, cs, i);
    if LastWriter(cs, i).None? {
      NoLastWriter(cs, i);
      TableCovered(c, m, ps, hs, i);
    } else {
      var j := LastWriterIndex(cs, i);
      InOneEntry(e.phoff, e.phentsize, e.phnum, |ps|, j, i);
      forall k | InExtraSlot(c, m, ps, k, i) ensures k == j {
        if k < j { EntryOffMono(e.phoff, e.phentsize, k, j); }
        if j < k { EntryOffMono(e.phoff, e.phentsize, j, k); }
      }
    }
  }

  /** An entry below n lies in front of entry n, and one from n on behind it. */
  lemma InOneEntry(base: nat, ent: nat, n: nat, len: nat, j: nat, i: nat)
    requires j < len && EntryOff(base, ent, j) <= i < EntryOff(base, ent, j) + ent
    ensures base <= i < EntryOff(base, ent, len)
    ensures if j < n then i < EntryOff(base, ent, n) else EntryOff(base, ent, n) <= i
  {
    assert EntryOff(base, ent, 0) == base;
    if j > 0 { EntryOffMono(base, ent, 0, j); }
    EntryOffMono(base, ent, j, len);
    if j < n {
      EntryOffMono(base, ent, j, n);
    } else if n < j {
      EntryOffMono(base, ent, n, j);
    }
  }

  /** The header writes cover the table and the slots behind it. */
  lemma TableCovered(c: Class, m: seq<byte>, ps: seq<PhdrRef>, hs: seq<ShdrRef>, i: nat)
    requires WriterSafe(c, m, ps, hs) && Coherent(c, m, ps, hs)
    ensures InPhdrTable(c, m, i) || InExtraSlots(c, m, ps, i) ==> CoveredBy(PhdrTableWrites(c, m, ps), i)
    ensures forall k :: InExtraSlot(c, m, ps, k, i) ==> CoveredBy(PhdrTableWrites(c, m, ps), i)
  {
    hide EhdrAt, PhdrAt, ShdrAt;
    var e := EhdrAt(c, m);
    var cs := PhdrTableWrites(c, m, ps);
    assert EntryOff(e.phoff, e.phentsize, 0) == e.phoff;
    if 0 < e.phnum { EntryOffMono(e.phoff, e.phentsize, 0, e.phnum); }
    if e.phnum < |ps| { EntryOffMono(e.phoff, e.phentsize, e.phnum, |ps|); }
    if e.phoff <= i < EntryOff(e.phoff, e.phentsize, |ps|) {
      var k := EntryOfOffset(e.phoff, e.phentsize, |ps|, i);
      assert Covers(cs[k], i);
    }
    forall k: nat | InExtraSlot(c, m, ps, k, i) ensures CoveredBy(cs, i) {
      assert Covers(cs[k], i);
    }
  }

  lemma ShdrTablePass(f: seq<byte>, c: Class, m: seq<byte>, ps: seq<PhdrRef>, hs: seq<ShdrRef>, i: nat)
    requires WriterSafe(c, m, ps, hs) && Coherent(c, m, ps, hs) && i < |f|
    ensures var cs := ShdrTableWrites(c, m, hs);
            if CoveredBy(cs, i) then i < |m| && Replay(f, m, cs)[i] == m[i] else Replay(f, m, cs)[i] == f[i]
  {
    hide EhdrAt, PhdrAt, ShdrAt;
    var cs := ShdrTableWrites(c, m, hs);
    assert forall j :: 0 <= j < |cs| ==> hs[j] == ShdrRefAt(c, m, j) && cs[j].src == cs[j].dst;
    ReplayAt(f, m, cs, i);
  }

  lemma SectionPass(f: seq<byte>, c: Class, m: seq<byte>, ps: seq<PhdrRef>, hs: seq<ShdrRef>, i: nat)
    requires WriterSafe(c, m, ps, hs) && Coherent(c, m, ps, hs) && i < |f|
    ensures var cs := SectionWrites(c, m, hs);
            if CoveredBy(cs, i) then i < |m| && Replay(f, m, cs)[i] == m[i] else Replay(f, m, cs)[i] == f[i]
  {
    hide EhdrAt, PhdrAt, ShdrAt;
    var cs := SectionWrites(c, m, hs);
    assert forall j :: 0 <= j < |cs| ==> hs[j] == ShdrRefAt(c, m, j) && cs[j].src == cs[j].dst;
    ReplayAt(f, m, cs, i);
  }

  /** A stale wrapper's content write is undone by the fresh alias behind it. */
  lemma SegmentPass(f: seq<byte>, c: Class, m: seq<byte>, ps: seq<PhdrRef>, hs: seq<ShdrRef>, i: nat)
    requires WriterSafe(c, m, ps, hs) && Coherent(c, m, ps, hs) && i < |f|
    ensures var cs := SegmentWrites(c, m, ps);
            if CoveredBy(cs, i) then i < |m| && Replay(f, m, cs)[i] == m[i] else Replay(f, m, cs)[i] == f[i]
  {
    hide EhdrAt, PhdrAt, ShdrAt;
    var cs := SegmentWrites(c, m, ps);
    forall j | 0 <= j < |cs| && Covers(cs[j], i)
      ensures Restored(cs, j, i)
    {
      assert FreshAlias(c, m, ps, j);
      var k :| j <= k < |ps| && ps[k].p_offset == ps[j].p_offset
               && ps[k].mem_offset == PhdrAt(c, m, ps[k].p_offset).offset;
      assert Covers(cs[k], i) && cs[k].src == cs[k].dst;
    }
    ReplayAt(f, m, cs, i);
  }

  // ----- the whole output -----

  lemma {:induction false} ReplayInside(f: seq<byte>, m: seq<byte>, cs: seq<Chunk>, len: nat)
    requires ChunksIn(m, cs)
    requires forall j :: 0 <= j < |cs| ==> cs[j].len == 0 || cs[j].dst + cs[j].len <= len
    ensures |Replay(f, m, cs)| <= if |f| < len then len else |f|
  {
    hide Overlay;
    if cs != [] {
      ReplayInside(f, m, cs[..|cs| - 1], len);
    }
  }

  /** Every content that is written comes to lie in front of the old end of the file. */
  lemma ContentsInside(c: Class, m: seq<byte>, ps: seq<PhdrRef>, hs: seq<ShdrRef>)
    requires WriterSafe(c, m, ps, hs) && Coherent(c, m, ps, hs)
    ensures forall j {:trigger ShdrTableWrites(c, m, hs)[j]} :: 0 <= j < |hs| ==>
              ShdrTableWrites(c, m, hs)[j].dst + ShdrTableWrites(c, m, hs)[j].len <= |m|
    ensures forall j {:trigger SectionWrites(c, m, hs)[j]} :: 0 <= j < |hs| ==>
              SectionWrites(c, m, hs)[j].dst + SectionWrites(c, m, hs)[j].len <= |m|
    ensures forall j {:trigger SegmentWrites(c, m, ps)[j]} :: 0 <= j < |ps| ==>
              SegmentWrites(c, m, ps)[j].dst + SegmentWrites(c, m, ps)[j].len <= |m|
  {
    hide EhdrAt, PhdrAt, ShdrAt;
    var cs2, cs3, cs4 := ShdrTableWrites(c, m, hs), SectionWrites(c, m, hs), SegmentWrites(c, m, ps);
    forall j | 0 <= j < |hs| ensures cs2[j].dst + cs2[j].len <= |m| && cs3[j].dst + cs3[j].len <= |m| {
      assert hs[j] == ShdrRefAt(c, m, j);
      assert cs2[j].src == cs2[j].dst && cs3[j].src == cs3[j].dst;
    }
    forall j | 0 <= j < |ps| ensures cs4[j].dst + cs4[j].len <= |m| {
      assert FreshAlias(c, m, ps, j);
      var k :| j <= k < |ps| && ps[k].p_offset == ps[j].p_offset
               && ps[k].mem_offset == PhdrAt(c, m, ps[k].p_offset).offset;
      assert cs4[k].src + cs4[k].len <= |m|;
    }
  }

  /** The headers of appended wrappers can make the output longer. */
  ghost function OutputEnd(c: Class, m: seq<byte>, ps: seq<PhdrRef>): nat
    requires EHDR_LEN <= |m|
  {
    var e := EhdrAt(c, m);
    var end := EntryOff(e.phoff, e.phentsize, |ps|);
    if e.phnum < |ps| && 0 < e.phentsize && |m| + EHDR_LEN < end then end else |m| + EHDR_LEN
  }

  lemma HeaderPassLength(f: seq<byte>, c: Class, m: seq<byte>, ps: seq<PhdrRef>, hs: seq<ShdrRef>)
    requires WriterSafe(c, m, ps, hs) && Coherent(c, m, ps, hs) && |f| == |m| + EHDR_LEN
    ensures |Replay(f, m, PhdrTableWrites(c, m, ps))| == OutputEnd(c, m, ps)
  {
    hide EhdrAt, PhdrAt, ShdrAt, Replay, LastWriter;
    var e := EhdrAt(c, m);
    var cs, end := PhdrTableWrites(c, m, ps), OutputEnd(c, m, ps);
    forall j | 0 <= j < |cs| ensures cs[j].len == 0 || cs[j].dst + cs[j].len <= end {
      if j < e.phnum {
        assert cs[j].src == cs[j].dst;
      } else {
        EntryOffMono(e.phoff, e.phentsize, j, |ps|);
      }
    }
    ReplayInside(f, m, cs, end);
    if |m| + EHDR_LEN < end {
      EntryOffStep(e.phoff, e.phentsize, |ps| - 1);
      assert Covers(cs[|cs| - 1], end - 1);
      if LastWriter(cs, end - 1).None? { NoLastWriter(cs, end - 1); }
      WrittenReaches(f, m, cs, end - 1);
    }
  }

  /** The length of the output, which the header pass alone decides. */
  lemma OutputLength(c: Class, m: seq<byte>, ps: seq<PhdrRef>, hs: seq<ShdrRef>)
    requires WriterSafe(c, m, ps, hs) && Coherent(c, m, ps, hs)
    ensures |Written(c, m, ps, hs)| == OutputEnd(c, m, ps)
  {
    hide EhdrAt, PhdrAt, ShdrAt, Replay, OutputEnd, PhdrTableWrites, ShdrTableWrites, SectionWrites, SegmentWrites;
    var f0 := Overlay(Zeros(|m|), |m|, m[..EHDR_LEN]);
    HeaderPassLength(f0, c, m, ps, hs);
    ContentsInside(c, m, ps, hs);
    var f1 := Replay(f0, m, PhdrTableWrites(c, m, ps));
    ReplayInside(f1, m, ShdrTableWrites(c, m, hs), |m|);
    var f2 := Replay(f1, m, ShdrTableWrites(c, m, hs));
    ReplayInside(f2, m, SectionWrites(c, m, hs), |m|);
    var f3 := Replay(f2, m, SectionWrites(c, m, hs));
    ReplayInside(f3, m, SegmentWrites(c, m, ps), |m|);
  }

  /**
   * The written file, byte by byte: inside a table or a content the buffer's byte; in
   * the slots behind the program header table the headers of the appended wrappers;
   * elsewhere zero, and behind the old end a copy of the ELF header.
   */
  lemma FileAt(c: Class, m: seq<byte>, ps: seq<PhdrRef>, hs: seq<ShdrRef>, i: nat)
    requires WriterSafe(c, m, ps, hs) && Coherent(c, m, ps, hs) && i < |Written(c, m, ps, hs)|
    ensures var b := Written(c, m, ps, hs)[i];
            && (Kept(c, m, ps, hs, i) ==> i < |m| && b == m[i])
            && (!Kept(c, m, ps, hs, i) ==>
                  && (forall k :: InExtraSlot(c, m, ps, k, i) ==> ExtraByte(c, m, ps, k, i, b))
                  && (!InExtraSlots(c, m, ps, i) ==>
                        b == if |m| <= i < |m| + EHDR_LEN then m[i - |m|] else 0))
  {
    hide EhdrAt, PhdrAt, ShdrAt, Replay, Coherent, InPhdrTable, InExtraSlots, InExtraSlot, ExtraByte, CoveredBy;
    hide OutputEnd;
    var f0 := Overlay(Zeros(|m|), |m|, m[..EHDR_LEN]);
    var f1 := Replay(f0, m, PhdrTableWrites(c, m, ps));
    var f2 := Replay(f1, m, ShdrTableWrites(c, m, hs));
    var f3 := Replay(f2, m, SectionWrites(c, m, hs));
    HeaderPassLength(f0, c, m, ps, hs);
    OutputLength(c, m, ps, hs);
    PhdrTablePass(f0, c, m, ps, hs, i);
    ShdrTablePass(f1, c, m, ps, hs, i);
    SectionPass(f2, c, m, ps, hs, i);
    SegmentPass(f3, c, m, ps, hs, i);
  }

  /**
   * Without appended wrappers the output is the buffer's length plus one ELF header:
   * the copy of the header stands at the end, not at the start.
   */
  lemma HeaderAtTheEnd(c: Class, m: seq<byte>, ps: seq<PhdrRef>, hs: seq<ShdrRef>)
    requires WriterSafe(c, m, ps, hs) && Coherent(c, m, ps, hs) && |ps| == EhdrAt(c, m).phnum
    ensures |Written(c, m, ps, hs)| == |m| + 64
    ensures Written(c, m, ps, hs)[|m|..] == m[..64]
  {
    hide EhdrAt, PhdrAt, ShdrAt, Written, Kept, InExtraSlot;
    var f := Written(c, m, ps, hs);
    OutputLength(c, m, ps, hs);
    forall i | 0 <= i < EHDR_LEN ensures f[|m| + i] == m[i] {
      FileAt(c, m, ps, hs, |m| + i);
    }
  }

  // ----- what is written, in terms of the headers -----

  /** Byte i of the file belongs to the range of len bytes at off. */
  predicate Within(i: nat, off: nat, len: nat)
  {
    off <= i < off + len
  }

  predicate InTables(e: Ehdr, i: nat)
  {
    Within(i, e.phoff, e.phnum * e.phentsize) || Within(i, e.shoff, e.shnum * e.shentsize)
  }

  ghost predicate InSectionContent(c: Class, m: seq<byte>, hs: seq<ShdrRef>, i: nat)
    requires RefsIn(c, m, hs)
  {
    exists k :: 0 <= k < |hs| && var h := ShdrAt(c, m, hs[k].sh_offset); Within(i, h.offset, h.size)
  }

  ghost predicate InSegmentContent(c: Class, m: seq<byte>, ps: seq<PhdrRef>, i: nat)
    requires PhdrRefsIn(c, m, ps)
  {
    exists k :: 0 <= k < |ps| && var p := PhdrAt(c, m, ps[k].p_offset); Within(i, p.offset, p.filesz)
  }

  /** The kept bytes: both tables, [sh_offset, +sh_size) of a section, [p_offset, +p_filesz) of a segment. */
  lemma KeptRanges(c: Class, m: seq<byte>, ps: seq<PhdrRef>, hs: seq<ShdrRef>, i: nat)
    requires WriterSafe(c, m, ps, hs) && Coherent(c, m, ps, hs)
    ensures Kept(c, m, ps, hs, i)
            <==> InTables(EhdrAt(c, m), i) || InSectionContent(c, m, hs, i) || InSegmentContent(c, m, ps, i)
  {
    hide EhdrAt, PhdrAt, ShdrAt;
    var e := EhdrAt(c, m);
    SectionTableRange(e.shoff, e.shentsize, |hs|, ShdrTableWrites(c, m, hs), i);
    var cs3, cs4 := SectionWrites(c, m, hs), SegmentWrites(c, m, ps);
    assert forall k :: 0 <= k < |hs| ==>
             (Covers(cs3[k], i) <==> var h := ShdrAt(c, m, hs[k].sh_offset); Within(i, h.offset, h.size));
    assert forall k :: 0 <= k < |ps| ==>
             (Covers(cs4[k], i) <==> var p := PhdrAt(c, m, ps[k].p_offset); Within(i, p.offset, p.filesz));
  }

  lemma SectionTableRange(base: nat, ent: nat, n: nat, cs: seq<Chunk>, i: nat)
    requires |cs| == n && forall k :: 0 <= k < n ==> cs[k].dst == EntryOff(base, ent, k) && cs[k].len == ent
    ensures CoveredBy(cs, i) <==> Within(i, base, n * ent)
  {
    assert EntryOff(base, ent, n) == base + n * ent && EntryOff(base, ent, 0) == base;
    if CoveredBy(cs, i) {
      var k :| 0 <= k < n && Covers(cs[k], i);
      InOneEntry(base, ent, n, n, k, i);
    }
    if base <= i < EntryOff(base, ent, n) {
      var k := EntryOfOffset(base, ent, n, i);
      assert Covers(cs[k], i);
    }
  }

  /**
   * Whatever the lists hold, the last wrapper whose segment covers a byte of the file
   * decides it, with the byte of the buffer its own mem_offset points at.
   */
  lemma LastSegmentShown(c: Class, m: seq<byte>, ps: seq<PhdrRef>, hs: seq<ShdrRef>, k: nat, i: nat)
    requires WriterSafe(c, m, ps, hs) && k < |ps|
    requires var p := PhdrAt(c, m, ps[k].p_offset); Within(i, p.offset, p.filesz)
    requires forall j :: k < j < |ps| ==> var p := PhdrAt(c, m, ps[j].p_offset); !Within(i, p.offset, p.filesz)
    ensures var from := ps[k].mem_offset + (i - PhdrAt(c, m, ps[k].p_offset).offset); var f := Written(c, m, ps, hs);
            i < |f| && from < |m| && f[i] == m[from]
  {
    hide EhdrAt, PhdrAt, ShdrAt, Replay, Overlay, LastWriter;
    var cs := SegmentWrites(c, m, ps);
    var f3 := Replay(Replay(Replay(Overlay(Zeros(|m|), |m|, m[..EHDR_LEN]), m, PhdrTableWrites(c, m, ps)), m,
                            ShdrTableWrites(c, m, hs)), m, SectionWrites(c, m, hs));
    SoleWriter(cs, k, i);
    WrittenReaches(f3, m, cs, i);
    LastWriterWins(f3, m, cs, i);
  }

  /** In the same way sections decide the bytes no segment covers. */
  lemma LastSectionShown(c: Class, m: seq<byte>, ps: seq<PhdrRef>, hs: seq<ShdrRef>, k: nat, i: nat)
    requires WriterSafe(c, m, ps, hs) && k < |hs|
    requires var h := ShdrAt(c, m, hs[k].sh_offset); Within(i, h.offset, h.size)
    requires forall j :: k < j < |hs| ==> var h := ShdrAt(c, m, hs[j].sh_offset); !Within(i, h.offset, h.size)
    requires forall j :: 0 <= j < |ps| ==> var p := PhdrAt(c, m, ps[j].p_offset); !Within(i, p.offset, p.filesz)
    ensures var from := hs[k].mem_offset + (i - ShdrAt(c, m, hs[k].sh_offset).offset); var f := Written(c, m, ps, hs);
            i < |f| && from < |m| && f[i] == m[from]
  {
    hide EhdrAt, PhdrAt, ShdrAt, Replay, Overlay, LastWriter;
    var cs3, cs4 := SectionWrites(c, m, hs), SegmentWrites(c, m, ps);
    var f2 := Replay(Replay(Overlay(Zeros(|m|), |m|, m[..EHDR_LEN]), m, PhdrTableWrites(c, m, ps)), m,
                     ShdrTableWrites(c, m, hs));
    var f3 := Replay(f2, m, cs3);
    SoleWriter(cs3, k, i);
    WrittenReaches(f2, m, cs3, i);
    LastWriterWins(f2, m, cs3, i);
    if LastWriter(cs4, i).Some? {
      var j := LastWriterIndex(cs4, i);
      assert false;
    }
    LastWriterWins(f3, m, cs4, i);
  }

  lemma SoleWriter(cs: seq<Chunk>, k: nat, i: nat)
    requires k < |cs| && Covers(cs[k], i) && forall j :: k < j < |cs| ==> !Covers(cs[j], i)
    ensures LastWriter(cs, i) == Some(cs[k])
  {
    hide LastWriter;
    if LastWriter(cs, i).None? {
      NoLastWriter(cs, i);
    } else {
      var j := LastWriterIndex(cs, i);
    }
  }

  // ----- parsing the output -----

  /** Byte i has the same value in the output. */
  ghost predicate Survives(c: Class, m: seq<byte>, ps: seq<PhdrRef>, hs: seq<ShdrRef>, i: nat)
    requires WriterSafe(c, m, ps, hs) && i < |m|
  {
    Kept(c, m, ps, hs, i) || (m[i] == 0 && !InExtraSlots(c, m, ps, i))
  }

  ghost predicate SurvivesOn(c: Class, m: seq<byte>, ps: seq<PhdrRef>, hs: seq<ShdrRef>, lo: nat, hi: nat)
    requires WriterSafe(c, m, ps, hs)
  {
    hi <= |m| && forall i :: lo <= i < hi ==> Survives(c, m, ps, hs, i)
  }

  lemma SurvivingRange(c: Class, m: seq<byte>, ps: seq<PhdrRef>, hs: seq<ShdrRef>, lo: nat, hi: nat)
    requires WriterSafe(c, m, ps, hs) && Coherent(c, m, ps, hs) && SurvivesOn(c, m, ps, hs, lo, hi)
    ensures Agree(m, Written(c, m, ps, hs), lo, hi)
  {
    hide Coherent, Kept, InExtraSlots, InExtraSlot, Written, WriterSafe, EhdrAt;
    OutputLength(c, m, ps, hs);
    forall i | lo <= i < hi ensures m[i] == Written(c, m, ps, hs)[i] {
      assert Survives(c, m, ps, hs, i);
      FileAt(c, m, ps, hs, i);
    }
  }

  /** The symbols' entries and names survive the write. */
  ghost predicate SymbolsSurvive(c: Class, m: seq<byte>, ps: seq<PhdrRef>, hs: seq<ShdrRef>, p: Parsed)
    requires WriterSafe(c, m, ps, hs)
  {
    p.syms != [] ==>
      && p.strtab.Some? && p.strtab.value.sh_offset + c.ShdrSize() <= |m|
      && forall i {:trigger p.syms[i]} :: 0 <= i < |p.syms| ==>
           var s := p.syms[i];
           && SurvivesOn(c, m, ps, hs, s.sym_offset, s.sym_offset + c.SymSize())
           && s.sym_offset + c.SymSize() <= |m|
           && var o := AddW(c, SymAt(c, m, s.sym_offset).name, ShdrAt(c, m, p.strtab.value.sh_offset).offset);
              SurvivesOn(c, m, ps, hs, o, o + |s.name| + 1)
  }

  /** The table entries are at least as large as the structures in them. */
  ghost predicate FullEntries(c: Class, m: seq<byte>)
    requires EHDR_LEN <= |m|
  {
    && (EhdrAt(c, m).phnum > 0 ==> EhdrAt(c, m).phentsize >= c.PhdrSize())
    && (EhdrAt(c, m).shnum > 0 ==> EhdrAt(c, m).shentsize >= c.ShdrSize())
  }

  lemma TableEntriesSurvive(c: Class, m: seq<byte>, ps: seq<PhdrRef>, hs: seq<ShdrRef>)
    requires WriterSafe(c, m, ps, hs) && Coherent(c, m, ps, hs) && FullEntries(c, m)
    ensures PhdrsAgree(c, m, Written(c, m, ps, hs)) && ShdrsAgree(c, m, Written(c, m, ps, hs))
  {
    hide EhdrAt, PhdrAt, ShdrAt, Written, Coherent, FullEntries, ChunksIn;
    var e, f := EhdrAt(c, m), Written(c, m, ps, hs);
    forall k | 0 <= k < e.phnum
      ensures var off := EntryOff(e.phoff, e.phentsize, k); Agree(m, f, off, off + c.PhdrSize())
    {
      PhdrEntrySurvives(c, m, ps, hs, k);
    }
    forall k | 0 <= k < e.shnum
      ensures var off := EntryOff(e.shoff, e.shentsize, k); Agree(m, f, off, off + c.ShdrSize())
    {
      ShdrEntrySurvives(c, m, ps, hs, k);
    }
  }

  lemma PhdrEntrySurvives(c: Class, m: seq<byte>, ps: seq<PhdrRef>, hs: seq<ShdrRef>, k: nat)
    requires WriterSafe(c, m, ps, hs) && Coherent(c, m, ps, hs) && FullEntries(c, m) && k < EhdrAt(c, m).phnum
    ensures var off := EntryOff(EhdrAt(c, m).phoff, EhdrAt(c, m).phentsize, k);
            Agree(m, Written(c, m, ps, hs), off, off + c.PhdrSize())
  {
    hide EhdrAt, PhdrAt, ShdrAt, Written, InExtraSlots;
    var e := EhdrAt(c, m);
    EntryOffMono(e.phoff, e.phentsize, k, e.phnum);
    if k > 0 { EntryOffMono(e.phoff, e.phentsize, 0, k); }
    assert ps[k].p_offset + c.PhdrSize() <= |m|;
    var off := EntryOff(e.phoff, e.phentsize, k);
    SurvivingRange(c, m, ps, hs, off, off + c.PhdrSize());
  }

  lemma ShdrEntrySurvives(c: Class, m: seq<byte>, ps: seq<PhdrRef>, hs: seq<ShdrRef>, k: nat)
    requires WriterSafe(c, m, ps, hs) && Coherent(c, m, ps, hs) && FullEntries(c, m) && k < EhdrAt(c, m).shnum
    ensures var off := EntryOff(EhdrAt(c, m).shoff, EhdrAt(c, m).shentsize, k);
            Agree(m, Written(c, m, ps, hs), off, off + c.ShdrSize())
  {
    hide EhdrAt, PhdrAt, ShdrAt, Written, InExtraSlots;
    var cs := ShdrTableWrites(c, m, hs);
    assert forall i :: cs[k].dst <= i < cs[k].dst + c.ShdrSize() ==> Covers(cs[k], i);
    SurvivingRange(c, m, ps, hs, cs[k].dst, cs[k].dst + c.ShdrSize());
  }

  /** The output is no longer than the parser can take. */
  ghost predicate OutputFits(m: seq<byte>, ps: seq<PhdrRef>)
    requires EHDR_LEN <= |m|
  {
    var c := ClassOf(m); var e := EhdrAt(c, m);
    && |m| + EHDR_LEN < c.Modulus() / 2
    && (e.phnum < |ps| ==> EntryOff(e.phoff, e.phentsize, |ps|) < c.Modulus() / 2)
  }

  /** No appended wrapper's header goes over the ELF header. */
  ghost predicate HeaderClear(c: Class, m: seq<byte>, ps: seq<PhdrRef>)
    requires EHDR_LEN <= |m|
  {
    forall i :: 0 <= i < EHDR_LEN ==> !InExtraSlots(c, m, ps, i)
  }

  lemma OutputSmall(m: seq<byte>, ps: seq<PhdrRef>, hs: seq<ShdrRef>)
    requires SmallBuffer(m) && EHDR_LEN <= |m|
    requires WriterSafe(ClassOf(m), m, ps, hs) && Coherent(ClassOf(m), m, ps, hs)
    requires OutputFits(m, ps) && HeaderClear(ClassOf(m), m, ps)
    ensures SmallBuffer(Written(ClassOf(m), m, ps, hs)) && |m| <= |Written(ClassOf(m), m, ps, hs)|
  {
    hide EhdrAt, PhdrAt, ShdrAt, Written, Kept, InExtraSlot, InExtraSlots, WriterSafe, Coherent;
    OutputLength(ClassOf(m), m, ps, hs);
    FileAt(ClassOf(m), m, ps, hs, 4);
  }

  // ----- the header of the copy -----

  /** The ELF header with zeros for the bytes that no table and no content covers. */
  ghost function CopiedHeader(c: Class, m: seq<byte>, ps: seq<PhdrRef>, hs: seq<ShdrRef>): Ehdr
    requires WriterSafe(c, m, ps, hs)
  {
    DecodeEhdr(c, seq(EHDR_LEN, i requires 0 <= i < EHDR_LEN => if Kept(c, m, ps, hs, i) then m[i] else 0))
  }

  /** Some identification byte is neither in a table nor in a content. */
  ghost predicate IdentificationLost(c: Class, m: seq<byte>, ps: seq<PhdrRef>, hs: seq<ShdrRef>)
    requires WriterSafe(c, m, ps, hs)
  {
    exists i :: 0 <= i < 6 && !Kept(c, m, ps, hs, i)
  }

  /** Tables and contents cover the identification, and enough of the header to describe the same tables. */
  ghost predicate HeaderSurvives(c: Class, m: seq<byte>, ps: seq<PhdrRef>, hs: seq<ShdrRef>)
    requires WriterSafe(c, m, ps, hs)
  {
    !IdentificationLost(c, m, ps, hs) && ReadsAlike(c, m, CopiedHeader(c, m, ps, hs), OutputEnd(c, m, ps))
  }

  /** The parser finds the copied header at the start of the output. */
  lemma HeaderOfCopy(m: seq<byte>, ps: seq<PhdrRef>, hs: seq<ShdrRef>)
    requires EhdrOk(m) && WriterSafe(ClassOf(m), m, ps, hs) && Coherent(ClassOf(m), m, ps, hs)
    requires HeaderClear(ClassOf(m), m, ps)
    ensures var c := ClassOf(m); var f := Written(c, m, ps, hs);
            && |m| <= |f| && EhdrAt(c, f) == CopiedHeader(c, m, ps, hs)
            && (IdentOk(f) <==> !IdentificationLost(c, m, ps, hs))
            && (IdentOk(f) ==> ClassOf(f) == c)
  {
    hide DecodeEhdr, PhdrAt, ShdrAt, Written, Kept, InExtraSlot, InExtraSlots, WriterSafe, Coherent, TablesFit;
    var c := ClassOf(m);
    var f := Written(c, m, ps, hs);
    OutputLength(c, m, ps, hs);
    forall i | 0 <= i < EHDR_LEN ensures f[i] == if Kept(c, m, ps, hs, i) then m[i] else 0 {
      FileAt(c, m, ps, hs, i);
    }
    assert f[..EHDR_LEN] == seq(EHDR_LEN, i requires 0 <= i < EHDR_LEN => if Kept(c, m, ps, hs, i) then m[i] else 0);
  }

  /** A header whose nonzero bytes are all covered survives. */
  lemma WholeHeaderSurvives(m: seq<byte>, ps: seq<PhdrRef>, hs: seq<ShdrRef>)
    requires EhdrOk(m) && WriterSafe(ClassOf(m), m, ps, hs)
    requires SurvivesOn(ClassOf(m), m, ps, hs, 0, ClassOf(m).EhdrSize())
    ensures HeaderSurvives(ClassOf(m), m, ps, hs)
  {
    hide DecodeEhdr, PhdrAt, ShdrAt, Kept, InExtraSlots, WriterSafe, TablesFit, ReadsAlike;
    var c := ClassOf(m);
    var h := seq(EHDR_LEN, i requires 0 <= i < EHDR_LEN => if Kept(c, m, ps, hs, i) then m[i] else 0);
    forall i | 0 <= i < c.EhdrSize() ensures h[i] == m[i] && (i < 6 ==> Kept(c, m, ps, hs, i)) {
      assert Survives(c, m, ps, hs, i);
    }
    assert h[..EHDR_LEN] == h;
    EhdrFrame(c, m, h);
    OwnHeaderReadsAlike(m, OutputEnd(c, m, ps));
  }

  // ----- write, parse -----

  /**
   * Writing a coherent binary and parsing the output gives back its tables if and only if
   * the header survives, provided the symbols' bytes do; without the identification the
   * output is rejected.
   */
  lemma WriteThenParse(m: seq<byte>, ps: seq<PhdrRef>, hs: seq<ShdrRef>)
    requires SmallBuffer(m) && Parse(m).code == Success && FullEntries(ClassOf(m), m)
    requires WriterSafe(ClassOf(m), m, ps, hs) && Coherent(ClassOf(m), m, ps, hs)
    requires OutputFits(m, ps) && HeaderClear(ClassOf(m), m, ps)
    requires SymbolsSurvive(ClassOf(m), m, ps, hs, Parse(m))
    ensures var c := ClassOf(m); var f := Written(c, m, ps, hs);
            && SmallBuffer(f)
            && (Parse(f) == Parse(m) <==> HeaderSurvives(c, m, ps, hs))
            && (IdentificationLost(c, m, ps, hs) ==> Parse(f).code == EFAULT)
  {
    hide EhdrAt, PhdrAt, ShdrAt, SymAt, Written, Parse, SurvivesOn, OutputFits, InExtraSlots, InExtraSlot, ReadsAlike;
    hide EhdrOk, IdentOk, WriterSafe, Coherent, SymbolsSurvive, Kept, CopiedHeader, OutputEnd, TableBytes;
    EhdrOfParsed(m);
    var c := ClassOf(m);
    var f := Written(c, m, ps, hs);
    OutputSmall(m, ps, hs);
    OutputLength(c, m, ps, hs);
    HeaderOfCopy(m, ps, hs);
    TableEntriesSurvive(c, m, ps, hs);
    if IdentificationLost(c, m, ps, hs) {
      LostHeaderRejected(m, ps, hs);
    } else if HeaderSurvives(c, m, ps, hs) {
      SymbolsKept(m, ps, hs);
      ParseDependsOnTables(m, f);
      PhdrRefsFrame(c, m, f);
      PhdrRefsOfParsed(m);
    } else if Parse(f) == Parse(m) {
      SameParseReadsAlike(m, f);
    }
  }

  /** Whatever else is in the binary, an output without the identification is rejected. */
  lemma LostHeaderRejected(m: seq<byte>, ps: seq<PhdrRef>, hs: seq<ShdrRef>)
    requires SmallBuffer(m) && EhdrOk(m) && WriterSafe(ClassOf(m), m, ps, hs) && Coherent(ClassOf(m), m, ps, hs)
    requires OutputFits(m, ps) && HeaderClear(ClassOf(m), m, ps) && IdentificationLost(ClassOf(m), m, ps, hs)
    ensures var f := Written(ClassOf(m), m, ps, hs); SmallBuffer(f) && Parse(f).code == EFAULT
  {
    hide EhdrAt, PhdrAt, ShdrAt, Written, OutputFits, HeaderClear, IdentificationLost, WriterSafe, Coherent;
    hide CopiedHeader, TablesFit;
    OutputSmall(m, ps, hs);
    HeaderOfCopy(m, ps, hs);
  }

  lemma EhdrOfParsed(m: seq<byte>)
    requires SmallBuffer(m) && Parse(m).code == Success
    ensures EhdrOk(m) && IdentOk(m) && EHDR_LEN <= |m|
  {
    hide TablesFit;
    EhdrOkFacts(m);
  }

  lemma PhdrRefsOfParsed(m: seq<byte>)
    requires SmallBuffer(m) && Parse(m).code == Success
    ensures EHDR_LEN <= |m| && PhdrsIn(ClassOf(m), m, EhdrAt(ClassOf(m), m).phnum)
    ensures Parse(m).phdrs == PhdrRefs(ClassOf(m), m, EhdrAt(ClassOf(m), m).phnum)
  {
    hide EhdrAt, PhdrAt, ShdrAt, ReadablePhdrs, ParseSyms, ParseShdrs, TablesFit, PhdrRefs;
    EhdrOfParsed(m);
  }

  lemma SymbolsKept(m: seq<byte>, ps: seq<PhdrRef>, hs: seq<ShdrRef>)
    requires SmallBuffer(m) && EHDR_LEN <= |m|
    requires WriterSafe(ClassOf(m), m, ps, hs) && Coherent(ClassOf(m), m, ps, hs)
    requires SymbolsSurvive(ClassOf(m), m, ps, hs, Parse(m))
    ensures SymsKept(ClassOf(m), m, Written(ClassOf(m), m, ps, hs), Parse(m))
  {
    hide EhdrAt, PhdrAt, ShdrAt, SymAt, Written, Parse, SurvivesOn, WriterSafe, Coherent;
    var c, p := ClassOf(m), Parse(m);
    var f := Written(c, m, ps, hs);
    forall i | 0 <= i < |p.syms|
      ensures SymKept(c, m, f, ShdrAt(c, m, p.strtab.value.sh_offset).offset, p.syms[i])
    {
      var s := p.syms[i];
      SurvivingRange(c, m, ps, hs, s.sym_offset, s.sym_offset + c.SymSize());
      var o := AddW(c, SymAt(c, m, s.sym_offset).name, ShdrAt(c, m, p.strtab.value.sh_offset).offset);
      SurvivingRange(c, m, ps, hs, o, o + |s.name| + 1);
    }
  }

  // ----- parse, write, parse -----

  /** [lo, hi) lies in the content of one section. */
  ghost predicate InsideSection(c: Class, m: seq<byte>, hs: seq<ShdrRef>, lo: nat, hi: nat)
    requires RefsIn(c, m, hs)
  {
    exists k :: 0 <= k < |hs| && ShdrAt(c, m, hs[k].sh_offset).offset <= lo
                && hi <= ShdrAt(c, m, hs[k].sh_offset).offset + ShdrAt(c, m, hs[k].sh_offset).size
  }

  /** The symbols' entries and NUL-terminated names lie in section contents. */
  ghost predicate SymbolsInSections(c: Class, m: seq<byte>, p: Parsed)
    requires RefsIn(c, m, p.shdrs)
  {
    p.syms != [] ==>
      && p.strtab.Some? && p.strtab.value.sh_offset + c.ShdrSize() <= |m|
      && forall i {:trigger p.syms[i]} :: 0 <= i < |p.syms| ==>
           var s := p.syms[i];
           && s.sym_offset + c.SymSize() <= |m|
           && InsideSection(c, m, p.shdrs, s.sym_offset, s.sym_offset + c.SymSize())
           && var o := AddW(c, SymAt(c, m, s.sym_offset).name, ShdrAt(c, m, p.strtab.value.sh_offset).offset);
              InsideSection(c, m, p.shdrs, o, o + |s.name| + 1)
  }

  lemma SectionSurvives(c: Class, m: seq<byte>, ps: seq<PhdrRef>, hs: seq<ShdrRef>, lo: nat, hi: nat)
    requires WriterSafe(c, m, ps, hs) && Coherent(c, m, ps, hs) && InsideSection(c, m, hs, lo, hi)
    ensures SurvivesOn(c, m, ps, hs, lo, hi)
  {
    hide EhdrAt, PhdrAt, ShdrAt, InExtraSlots;
    var k :| 0 <= k < |hs| && ShdrAt(c, m, hs[k].sh_offset).offset <= lo
             && hi <= ShdrAt(c, m, hs[k].sh_offset).offset + ShdrAt(c, m, hs[k].sh_offset).size;
    assert hs[k] == ShdrRefAt(c, m, k);
    var cs := SectionWrites(c, m, hs);
    assert cs[k].src == cs[k].dst && cs[k].src + cs[k].len <= |m|;
    assert forall i :: lo <= i < hi ==> Covers(cs[k], i);
  }

  /** Symbols in section contents survive every write. */
  lemma SymbolsInSectionsSurvive(c: Class, m: seq<byte>, ps: seq<PhdrRef>, p: Parsed)
    requires WriterSafe(c, m, ps, p.shdrs) && Coherent(c, m, ps, p.shdrs)
    requires SymbolsInSections(c, m, p)
    ensures SymbolsSurvive(c, m, ps, p.shdrs, p)
  {
    hide EhdrAt, PhdrAt, ShdrAt, SymAt, SurvivesOn, InsideSection, Coherent, WriterSafe;
    forall i | 0 <= i < |p.syms|
      ensures var s := p.syms[i];
              && s.sym_offset + c.SymSize() <= |m|
              && SurvivesOn(c, m, ps, p.shdrs, s.sym_offset, s.sym_offset + c.SymSize())
              && var o := AddW(c, SymAt(c, m, s.sym_offset).name, ShdrAt(c, m, p.strtab.value.sh_offset).offset);
                 SurvivesOn(c, m, ps, p.shdrs, o, o + |s.name| + 1)
    {
      var s := p.syms[i];
      SectionSurvives(c, m, ps, p.shdrs, s.sym_offset, s.sym_offset + c.SymSize());
      var o := AddW(c, SymAt(c, m, s.sym_offset).name, ShdrAt(c, m, p.strtab.value.sh_offset).offset);
      SectionSurvives(c, m, ps, p.shdrs, o, o + |s.name| + 1);
    }
  }

  /** A parsed binary is coherent. */
  lemma ParsedIsCoherent(m: seq<byte>)
    requires SmallBuffer(m) && Parse(m).code == Success
    ensures Coherent(ClassOf(m), m, Parse(m).phdrs, Parse(m).shdrs)
    ensures Parse(m).phdrs == PhdrRefs(ClassOf(m), m, EhdrAt(ClassOf(m), m).phnum)
  {
    hide EhdrAt, PhdrAt, ShdrAt, Readable, ParseSyms, SymtabLink, FindStrtab, TablesFit;
    EhdrOkFacts(m);
    var c, p := ClassOf(m), Parse(m);
    forall k | 0 <= k < |p.phdrs|
      ensures p.phdrs[k].p_offset + c.PhdrSize() <= |m| && p.phdrs[k] == PhdrRefAt(c, m, k)
    {
    }
    forall k | 0 <= k < |p.phdrs| ensures FreshAlias(c, m, p.phdrs, k) {
      assert p.phdrs[k].mem_offset == PhdrAt(c, m, p.phdrs[k].p_offset).offset;
    }
  }

  lemma ParsedIsClear(m: seq<byte>)
    requires SmallBuffer(m) && Parse(m).code == Success
    ensures EHDR_LEN <= |m| && HeaderClear(ClassOf(m), m, Parse(m).phdrs)
  {
    hide EhdrAt, PhdrAt, Parse;
    PhdrRefsOfParsed(m);
  }

  /**
   * Parse, write, parse is the identity if and only if tables and contents cover the six
   * identification bytes, and the header fields, read with zeros for uncovered bytes,
   * still describe the same tables.
   */
  lemma ParseWriteParse(m: seq<byte>)
    requires SmallBuffer(m) && Parse(m).code == Success && FullEntries(ClassOf(m), m) && OutputFits(m, Parse(m).phdrs)
    requires WriterSafe(ClassOf(m), m, Parse(m).phdrs, Parse(m).shdrs)
    requires SymbolsSurvive(ClassOf(m), m, Parse(m).phdrs, Parse(m).shdrs, Parse(m))
    ensures var c, p := ClassOf(m), Parse(m);
            var f := Written(c, m, p.phdrs, p.shdrs);
            && SmallBuffer(f)
            && (Parse(f) == p <==> HeaderSurvives(c, m, p.phdrs, p.shdrs))
            && (IdentificationLost(c, m, p.phdrs, p.shdrs) ==> Parse(f).code == EFAULT)
  {
    hide EhdrAt, Parse, Written, Coherent, WriterSafe, SymbolsSurvive, HeaderSurvives, OutputFits;
    ParsedIsCoherent(m);
    ParsedIsClear(m);
    WriteThenParse(m, Parse(m).phdrs, Parse(m).shdrs);
  }
}
