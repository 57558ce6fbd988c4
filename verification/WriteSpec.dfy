/** The file a write produces: passes of (seek, write) pairs laid over a zero-filled file. */
module WriteSpec {
  import opened Bytes
  import opened Layout
  import opened ParseSpec

  /** write(2) of src at pos: bytes are replaced, a gap past the end reads as zero. */
  function Overlay(f: seq<byte>, pos: nat, src: seq<byte>): (r: seq<byte>)
    ensures |f| <= |r|
    ensures src == [] ==> r == f
    ensures src != [] ==> |r| == (if pos + |src| > |f| then pos + |src| else |f|)
    ensures forall i :: 0 <= i < |r| ==>
              r[i] == if pos <= i < pos + |src| then src[i - pos] else if i < |f| then f[i] else 0
  {
    if src == [] then f
    else seq(if pos + |src| > |f| then pos + |src| else |f|,
             i requires 0 <= i => if pos <= i < pos + |src| then src[i - pos] else if i < |f| then f[i] else 0)
  }

  lemma OverlayEmpty(src: seq<byte>)
    ensures Overlay([], 0, src) == src
  {
  }

  /** One write: len bytes of the buffer from src to file offset dst. */
  datatype Chunk = Chunk(dst: nat, src: nat, len: nat)

  predicate Covers(ch: Chunk, i: nat)
  {
    ch.dst <= i < ch.dst + ch.len
  }

  /** Every source range lies in the buffer. */
  predicate ChunksIn(m: seq<byte>, cs: seq<Chunk>)
  {
    forall j :: 0 <= j < |cs| ==> cs[j].src + cs[j].len <= |m|
  }

  /** The file after the writes cs, in order. */
  function Replay(f: seq<byte>, m: seq<byte>, cs: seq<Chunk>): (r: seq<byte>)
    requires ChunksIn(m, cs)
    ensures |f| <= |r|
  {
    if cs == [] then f
    else
      var last := cs[|cs| - 1];
      Overlay(Replay(f, m, cs[..|cs| - 1]), last.dst, m[last.src..last.src + last.len])
  }

  lemma ReplayNone(f: seq<byte>, m: seq<byte>)
    ensures Replay(f, m, []) == f
  {
  }

  lemma ReplaySnoc(f: seq<byte>, m: seq<byte>, cs: seq<Chunk>, k: nat)
    requires ChunksIn(m, cs) && k < |cs|
    ensures Replay(f, m, cs[..k + 1])
            == Overlay(Replay(f, m, cs[..k]), cs[k].dst, m[cs[k].src..cs[k].src + cs[k].len])
  {
    hide Overlay;
    var prefix := cs[..k + 1];
    assert prefix[..k] == cs[..k] && prefix[k] == cs[k];
  }

  // ----- the passes of elftool_write32 / 64 -----

  ghost function PhdrTableWrites(c: Class, m: seq<byte>, ps: seq<PhdrRef>): (cs: seq<Chunk>)
    requires EHDR_LEN <= |m|
    ensures |cs| == |ps|
    ensures forall k :: 0 <= k < |ps| ==>
              cs[k] == Chunk(EntryOff(EhdrAt(c, m).phoff, EhdrAt(c, m).phentsize, k), ps[k].p_offset,
                             EhdrAt(c, m).phentsize)
  {
    var e := EhdrAt(c, m);
    seq(|ps|, k requires 0 <= k < |ps| => Chunk(EntryOff(e.phoff, e.phentsize, k), ps[k].p_offset, e.phentsize))
  }

  ghost function ShdrTableWrites(c: Class, m: seq<byte>, hs: seq<ShdrRef>): (cs: seq<Chunk>)
    requires EHDR_LEN <= |m|
    ensures |cs| == |hs|
    ensures forall k :: 0 <= k < |hs| ==>
              cs[k] == Chunk(EntryOff(EhdrAt(c, m).shoff, EhdrAt(c, m).shentsize, k), hs[k].sh_offset,
                             EhdrAt(c, m).shentsize)
  {
    var e := EhdrAt(c, m);
    seq(|hs|, k requires 0 <= k < |hs| => Chunk(EntryOff(e.shoff, e.shentsize, k), hs[k].sh_offset, e.shentsize))
  }

  ghost function SectionWrites(c: Class, m: seq<byte>, hs: seq<ShdrRef>): (cs: seq<Chunk>)
    requires RefsIn(c, m, hs)
    ensures |cs| == |hs|
    ensures forall k :: 0 <= k < |hs| ==>
              cs[k] == Chunk(ShdrAt(c, m, hs[k].sh_offset).offset, hs[k].mem_offset, ShdrAt(c, m, hs[k].sh_offset).size)
  {
    seq(|hs|, k requires 0 <= k < |hs| =>
      Chunk(ShdrAt(c, m, hs[k].sh_offset).offset, hs[k].mem_offset, ShdrAt(c, m, hs[k].sh_offset).size))
  }

  predicate PhdrRefsIn(c: Class, m: seq<byte>, ps: seq<PhdrRef>)
  {
    forall i :: 0 <= i < |ps| ==> ps[i].p_offset + c.PhdrSize() <= |m|
  }

  ghost function SegmentWrites(c: Class, m: seq<byte>, ps: seq<PhdrRef>): (cs: seq<Chunk>)
    requires PhdrRefsIn(c, m, ps)
    ensures |cs| == |ps|
    ensures forall k :: 0 <= k < |ps| ==>
              cs[k] == Chunk(PhdrAt(c, m, ps[k].p_offset).offset, ps[k].mem_offset, PhdrAt(c, m, ps[k].p_offset).filesz)
  {
    seq(|ps|, k requires 0 <= k < |ps| =>
      Chunk(PhdrAt(c, m, ps[k].p_offset).offset, ps[k].mem_offset, PhdrAt(c, m, ps[k].p_offset).filesz))
  }

  /** Every range the writer copies out of the buffer lies in it. */
  ghost predicate WriterSafe(c: Class, m: seq<byte>, ps: seq<PhdrRef>, hs: seq<ShdrRef>)
  {
    && EHDR_LEN <= |m| && PhdrRefsIn(c, m, ps) && RefsIn(c, m, hs)
    && ChunksIn(m, PhdrTableWrites(c, m, ps)) && ChunksIn(m, ShdrTableWrites(c, m, hs))
    && ChunksIn(m, SectionWrites(c, m, hs)) && ChunksIn(m, SegmentWrites(c, m, ps))
  }

  function Zeros(n: nat): (z: seq<byte>)
    ensures |z| == n && forall i :: 0 <= i < n ==> z[i] == 0
  {
    seq(n, _ => 0)
  }

  /** The passes of elftool_write32 / 64 after the ELF header. */
  ghost function Passes(f: seq<byte>, c: Class, m: seq<byte>, ps: seq<PhdrRef>, hs: seq<ShdrRef>): seq<byte>
    requires WriterSafe(c, m, ps, hs)
  {
    var f1 := Replay(f, m, PhdrTableWrites(c, m, ps));
    var f2 := Replay(f1, m, ShdrTableWrites(c, m, hs));
    var f3 := Replay(f2, m, SectionWrites(c, m, hs));
    Replay(f3, m, SegmentWrites(c, m, ps))
  }

  /**
   * The whole output.  The zero fill leaves the file position at the end, and nothing
   * seeks back before the first write: the ELF header lands behind the zeros.
   */
  ghost function Written(c: Class, m: seq<byte>, ps: seq<PhdrRef>, hs: seq<ShdrRef>): seq<byte>
    requires WriterSafe(c, m, ps, hs)
  {
    Passes(Overlay(Zeros(|m|), |m|, m[..EHDR_LEN]), c, m, ps, hs)
  }
}
