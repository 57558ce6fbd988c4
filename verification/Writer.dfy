/** elftool_write.c: the writer as it runs, over a file with a position. */
module Writer {
  import opened Bytes
  import opened Layout
  import opened Lists
  import opened Elftool
  import opened ParseSpec
  import opened WriteSpec

  /** A regular file open for writing. */
  class OutFile {
    var data: seq<byte>
    var pos: nat

    /** open with O_TRUNC. */
    constructor ()
      ensures data == [] && pos == 0
    {
      data, pos := [], 0;
    }

    /** lseek(fd, p, SEEK_SET). */
    method Seek(p: nat)
      modifies `pos
      ensures pos == p
    {
      pos := p;
    }

    /** write(fd, src, |src|). */
    method Write(src: seq<byte>)
      modifies this
      ensures data == Overlay(old(data), old(pos), src) && pos == old(pos) + |src|
    {
      data := Overlay(data, pos, src);
      pos := pos + |src|;
    }
  }

  /** The binary as the writer sees it: class, buffer and lists. */
  ghost predicate Holds(bin: Elf, c: Class, m: seq<byte>, ps: seq<PhdrRef>, hs: seq<ShdrRef>)
    reads bin, bin.mem, bin.phdr, bin.phdr.spine, bin.shdr, bin.shdr.spine, bin.syms, bin.syms.spine
  {
    && bin.Valid() && bin.Cls() == c && bin.mem[..] == m
    && bin.phdr.Contents() == ps && bin.shdr.Contents() == hs
    && WriterSafe(c, m, ps, hs)
  }

  lemma HoldsFacts(bin: Elf, c: Class, m: seq<byte>, ps: seq<PhdrRef>, hs: seq<ShdrRef>)
    requires Holds(bin, c, m, ps, hs)
    ensures bin.phdr.Valid() && bin.shdr.Valid() && bin.Cls() == c && bin.mem[..] == m
    ensures bin.phdr.Contents() == ps && bin.shdr.Contents() == hs
    ensures EHDR_LEN <= |m| && PhdrRefsIn(c, m, ps) && RefsIn(c, m, hs)
    ensures ChunksIn(m, PhdrTableWrites(c, m, ps)) && ChunksIn(m, ShdrTableWrites(c, m, hs))
    ensures ChunksIn(m, SectionWrites(c, m, hs)) && ChunksIn(m, SegmentWrites(c, m, ps))
  {
    hide EhdrAt, PhdrAt, ShdrAt, PhdrTableWrites, ShdrTableWrites, SectionWrites, SegmentWrites, Linked, ContentsOf;
  }

  /** elftool_write32 / 64, "Copy phdr table". */
  method CopyPhdrTable(bin: Elf, file: OutFile,
                       ghost c: Class, ghost m: seq<byte>, ghost ps: seq<PhdrRef>, ghost hs: seq<ShdrRef>)
    requires Holds(bin, c, m, ps, hs)
    modifies file
    ensures file.data == Replay(old(file.data), m, PhdrTableWrites(c, m, ps))
  {
    hide EhdrAt, PhdrAt, ShdrAt, Replay, Overlay, Holds, WriterSafe, ContentsOf, Linked;
    hide PhdrTableWrites, ShdrTableWrites, SectionWrites, SegmentWrites;
    HoldsFacts(bin, c, m, ps, hs);
    var mem := bin.mem[..];
    var e := EhdrAt(bin.Cls(), mem);
    ghost var cs := PhdrTableWrites(c, m, ps);
    file.Seek(e.phoff);
    var head := bin.phdr.head;
    ghost var i := 0;
    ReplayNone(file.data, m);
    while head != null
      invariant bin.phdr.Valid() && i <= |cs| && head == NodeAt(bin.phdr.spine, i)
      invariant file.pos == EntryOff(e.phoff, e.phentsize, i)
      invariant file.data == Replay(old(file.data), m, cs[..i])
      decreases |cs| - i
    {
      NextNode(bin.phdr, i);
      ReplaySnoc(old(file.data), m, cs, i);
      EntryOffStep(e.phoff, e.phentsize, i);
      file.Write(mem[head.content.p_offset..head.content.p_offset + e.phentsize]);
      head := head.next;
      i := i + 1;
    }
    assert cs[..i] == cs;
  }

  /** elftool_write32 / 64, "Copy section table". */
  method CopyShdrTable(bin: Elf, file: OutFile,
                       ghost c: Class, ghost m: seq<byte>, ghost ps: seq<PhdrRef>, ghost hs: seq<ShdrRef>)
    requires Holds(bin, c, m, ps, hs)
    modifies file
    ensures file.data == Replay(old(file.data), m, ShdrTableWrites(c, m, hs))
  {
    hide EhdrAt, PhdrAt, ShdrAt, Replay, Overlay, Holds, WriterSafe, ContentsOf, Linked;
    hide PhdrTableWrites, ShdrTableWrites, SectionWrites, SegmentWrites;
    HoldsFacts(bin, c, m, ps, hs);
    var mem := bin.mem[..];
    var e := EhdrAt(bin.Cls(), mem);
    ghost var cs := ShdrTableWrites(c, m, hs);
    file.Seek(e.shoff);
    var head := bin.shdr.head;
    ghost var i := 0;
    ReplayNone(file.data, m);
    while head != null
      invariant bin.shdr.Valid() && i <= |cs| && head == NodeAt(bin.shdr.spine, i)
      invariant file.pos == EntryOff(e.shoff, e.shentsize, i)
      invariant file.data == Replay(old(file.data), m, cs[..i])
      decreases |cs| - i
    {
      NextNode(bin.shdr, i);
      ReplaySnoc(old(file.data), m, cs, i);
      EntryOffStep(e.shoff, e.shentsize, i);
      file.Write(mem[head.content.sh_offset..head.content.sh_offset + e.shentsize]);
      head := head.next;
      i := i + 1;
    }
    assert cs[..i] == cs;
  }

  /** elftool_write32 / 64, "Copy sections content"; sh_type is not looked at. */
  method CopySections(bin: Elf, file: OutFile,
                      ghost c: Class, ghost m: seq<byte>, ghost ps: seq<PhdrRef>, ghost hs: seq<ShdrRef>)
    requires Holds(bin, c, m, ps, hs)
    modifies file
    ensures file.data == Replay(old(file.data), m, SectionWrites(c, m, hs))
  {
    hide EhdrAt, PhdrAt, ShdrAt, Replay, Overlay, Holds, WriterSafe, ContentsOf, Linked;
    hide PhdrTableWrites, ShdrTableWrites, SectionWrites, SegmentWrites;
    HoldsFacts(bin, c, m, ps, hs);
    var cls := bin.Cls();
    var mem := bin.mem[..];
    ghost var cs := SectionWrites(c, m, hs);
    var head := bin.shdr.head;
    ghost var i := 0;
    ReplayNone(file.data, m);
    while head != null
      invariant bin.shdr.Valid() && i <= |cs| && head == NodeAt(bin.shdr.spine, i)
      invariant file.data == Replay(old(file.data), m, cs[..i])
      decreases |cs| - i
    {
      NextNode(bin.shdr, i);
      ReplaySnoc(old(file.data), m, cs, i);
      var h := ShdrAt(cls, mem, head.content.sh_offset);
      file.Seek(h.offset);
      file.Write(mem[head.content.mem_offset..head.content.mem_offset + h.size]);
      head := head.next;
      i := i + 1;
    }
    assert cs[..i] == cs;
  }

  /** elftool_write32 / 64, "Copy phdr content". */
  method CopySegments(bin: Elf, file: OutFile,
                      ghost c: Class, ghost m: seq<byte>, ghost ps: seq<PhdrRef>, ghost hs: seq<ShdrRef>)
    requires Holds(bin, c, m, ps, hs)
    modifies file
    ensures file.data == Replay(old(file.data), m, SegmentWrites(c, m, ps))
  {
    hide EhdrAt, PhdrAt, ShdrAt, Replay, Overlay, Holds, WriterSafe, ContentsOf, Linked;
    hide PhdrTableWrites, ShdrTableWrites, SectionWrites, SegmentWrites;
    HoldsFacts(bin, c, m, ps, hs);
    var cls := bin.Cls();
    var mem := bin.mem[..];
    ghost var cs := SegmentWrites(c, m, ps);
    var head := bin.phdr.head;
    ghost var i := 0;
    ReplayNone(file.data, m);
    while head != null
      invariant bin.phdr.Valid() && i <= |cs| && head == NodeAt(bin.phdr.spine, i)
      invariant file.data == Replay(old(file.data), m, cs[..i])
      decreases |cs| - i
    {
      NextNode(bin.phdr, i);
      ReplaySnoc(old(file.data), m, cs, i);
      var p := PhdrAt(cls, mem, head.content.p_offset);
      file.Seek(p.offset);
      file.Write(mem[head.content.mem_offset..head.content.mem_offset + p.filesz]);
      head := head.next;
      i := i + 1;
    }
    assert cs[..i] == cs;
  }

  /** elftool_write32 / 64: the header at the current position, then the passes. */
  method WriteClass(bin: Elf, file: OutFile,
                    ghost c: Class, ghost m: seq<byte>, ghost ps: seq<PhdrRef>, ghost hs: seq<ShdrRef>)
    requires Holds(bin, c, m, ps, hs)
    modifies file
    ensures file.data == Passes(Overlay(old(file.data), old(file.pos), m[..EHDR_LEN]), c, m, ps, hs)
  {
    hide EhdrAt, PhdrAt, ShdrAt, Replay, Overlay;
    hide PhdrTableWrites, ShdrTableWrites, SectionWrites, SegmentWrites;
    var header := bin.mem[..EHDR_LEN];
    assert header == m[..EHDR_LEN];
    hide Holds;
    file.Write(header);
    CopyPhdrTable(bin, file, c, m, ps, hs);
    CopyShdrTable(bin, file, c, m, ps, hs);
    CopySections(bin, file, c, m, ps, hs);
    CopySegments(bin, file, c, m, ps, hs);
  }

  /** elftool_write on a file that was just opened. */
  method WriteElf(bin: Elf, file: OutFile)
    requires bin.Valid() && WriterSafe(bin.Cls(), bin.mem[..], bin.phdr.Contents(), bin.shdr.Contents())
    requires file.data == [] && file.pos == 0
    modifies file
    ensures file.data == Written(bin.Cls(), bin.mem[..], bin.phdr.Contents(), bin.shdr.Contents())
  {
    hide Overlay, WriterSafe, Passes;
    OverlayEmpty(Zeros(bin.length));
    file.Write(Zeros(bin.length));
    WriteClass(bin, file, bin.Cls(), bin.mem[..], bin.phdr.Contents(), bin.shdr.Contents());
  }
}
