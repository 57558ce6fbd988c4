/**
 * What a loader sees of a 64-bit binary: each PT_LOAD header maps p_memsz addresses
 * from p_vaddr on; the first p_filesz of them show file bytes, the rest are zero.
 */
module Loader {
  import opened Bytes
  import opened Layout

  /** The program header table has full-size entries and lies between the ELF header and the end. */
  ghost predicate TableIn(m: seq<byte>)
  {
    && EHDR_LEN <= |m|
    && var e := EhdrAt(Class64, m);
    && e.phentsize == Class64.PhdrSize()
    && EHDR_LEN <= e.phoff
    && e.phoff + 56 * e.phnum <= |m|
  }

  ghost function Phnum(m: seq<byte>): nat
    requires TableIn(m)
  {
    EhdrAt(Class64, m).phnum
  }

  /** File offset of program header k. */
  ghost function SlotOff(m: seq<byte>, k: nat): (off: nat)
    requires TableIn(m)
    ensures off == EhdrAt(Class64, m).phoff + 56 * k
    ensures off == EntryOff(EhdrAt(Class64, m).phoff, EhdrAt(Class64, m).phentsize, k)
    ensures k < Phnum(m) ==> off + 56 <= |m|
  {
    EhdrAt(Class64, m).phoff + 56 * k
  }

  ghost function Slot(m: seq<byte>, k: nat): Phdr
    requires TableIn(m) && k < Phnum(m)
  {
    PhdrAt(Class64, m, SlotOff(m, k))
  }

  ghost predicate IsLoad(m: seq<byte>, k: nat)
    requires TableIn(m)
  {
    k < Phnum(m) && Slot(m, k).ptype == PT_LOAD
  }

  ghost predicate IsNote(m: seq<byte>, k: nat)
    requires TableIn(m)
  {
    k < Phnum(m) && Slot(m, k).ptype == PT_NOTE
  }

  ghost predicate Apart(p: Phdr, q: Phdr)
  {
    p.vaddr + p.memsz <= q.vaddr || q.vaddr + q.memsz <= p.vaddr
  }

  ghost predicate SegmentOk(m: seq<byte>, p: Phdr)
  {
    && 0 < p.memsz && p.filesz <= p.memsz
    && p.vaddr + p.memsz <= TWO64
    && p.offset + p.filesz <= |m|
  }

  /** PT_LOAD segments are nonempty, inside the file and pairwise disjoint in memory. */
  ghost predicate LoadsOk(m: seq<byte>)
    requires TableIn(m)
  {
    && (forall k :: IsLoad(m, k) ==> SegmentOk(m, Slot(m, k)))
    && (forall j, k :: IsLoad(m, j) && IsLoad(m, k) && j != k ==> Apart(Slot(m, j), Slot(m, k)))
  }

  ghost predicate Maps(m: seq<byte>, k: nat, a: nat)
    requires TableIn(m)
  {
    IsLoad(m, k) && Slot(m, k).vaddr <= a < Slot(m, k).vaddr + Slot(m, k).memsz
  }

  /** The file offset behind address a in segment k; None in its zero-filled part. */
  ghost function FileByte(m: seq<byte>, k: nat, a: nat): (r: Option<nat>)
    requires TableIn(m) && LoadsOk(m) && Maps(m, k, a)
    ensures r.Some? ==> r.value < |m|
  {
    var p := Slot(m, k);
    assert SegmentOk(m, p);
    if a - p.vaddr < p.filesz then Some(p.offset + (a - p.vaddr)) else None
  }

  ghost function SegByte(m: seq<byte>, k: nat, a: nat): byte
    requires TableIn(m) && LoadsOk(m) && Maps(m, k, a)
  {
    if FileByte(m, k, a).Some? then m[FileByte(m, k, a).value] else 0
  }

  ghost predicate Mapped(m: seq<byte>, a: nat)
    requires TableIn(m)
  {
    exists k :: Maps(m, k, a)
  }

  /** The memory image: address to byte. */
  ghost function Image(m: seq<byte>, a: nat): Option<byte>
    requires TableIn(m) && LoadsOk(m)
  {
    if Mapped(m, a) then
      var k :| Maps(m, k, a);
      Some(SegByte(m, k, a))
    else None
  }

  /** At most one segment maps an address, so the image does not depend on the choice. */
  lemma ImageIs(m: seq<byte>, k: nat, a: nat)
    requires TableIn(m) && LoadsOk(m) && Maps(m, k, a)
    ensures Image(m, a) == Some(SegByte(m, k, a))
    ensures forall j :: Maps(m, j, a) ==> j == k
  {
    hide Slot, SegByte;
    assert Mapped(m, a);
  }
}
