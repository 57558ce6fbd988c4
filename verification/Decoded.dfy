/** The byte positions of every decoded field, in both classes, and the widths of the two classes. */
module Decoded {
  import opened Bytes
  import opened Layout
  import opened ParseSpec

  function Le2(m: seq<byte>, o: nat): nat
    requires o + 2 <= |m|
  {
    m[o] as nat + 0x100 * (m[o + 1] as nat)
  }

  function Le4(m: seq<byte>, o: nat): nat
    requires o + 4 <= |m|
  {
    Le2(m, o) + 0x1_0000 * Le2(m, o + 2)
  }

  function Le8(m: seq<byte>, o: nat): nat
    requires o + 8 <= |m|
  {
    Le4(m, o) + 0x1_0000_0000 * Le4(m, o + 4)
  }

  // ----- fields -----

  lemma LittleEndian2(s: seq<byte>)
    requires |s| == 2
    ensures LE(s) == Le2(s, 0)
  {
    var g := s[1..];
    assert g[1..] == [] && g[0] == s[1];
    assert LE(s) == s[0] as nat + 256 * LE(g) && LE(g) == g[0] as nat + 256 * LE(g[1..]);
  }

  lemma {:induction false} LEAppend(s: seq<byte>, t: seq<byte>)
    ensures LE(s + t) == LE(s) + Pow256(|s|) * LE(t)
  {
    if s == [] {
      assert s + t == t;
    } else {
      LEAppend(s[1..], t);
      assert (s + t)[1..] == s[1..] + t;
      Scale(Pow256(|s| - 1), LE(t));
    }
  }

  lemma Scale(p: nat, v: nat)
    ensures 256 * (p * v) == 256 * p * v
  {
  }

  lemma LittleEndian4(s: seq<byte>)
    requires |s| == 4
    ensures LE(s) == Le4(s, 0)
  {
    hide LE;
    assert s == s[..2] + s[2..];
    LEAppend(s[..2], s[2..]);
    LittleEndian2(s[..2]);
    LittleEndian2(s[2..]);
    assert Pow256(2) == 0x1_0000;
  }

  lemma LittleEndian8(s: seq<byte>)
    requires |s| == 8
    ensures LE(s) == Le8(s, 0)
  {
    hide LE;
    assert s == s[..4] + s[4..];
    LEAppend(s[..4], s[4..]);
    LittleEndian4(s[..4]);
    LittleEndian4(s[4..]);
    assert Pow256(4) == 0x1_0000_0000;
  }

  /** A slice of a slice. */
  lemma Slice(m: seq<byte>, lo: nat, hi: nat, at: nat, n: nat)
    requires lo + at + n <= hi <= |m|
    ensures m[lo..hi][at..at + n] == m[lo + at..lo + at + n]
  {
    var s, t := m[lo..hi], m[lo + at..lo + at + n];
    forall i | 0 <= i < n ensures s[at..at + n][i] == t[i] {
      assert s[at..at + n][i] == s[at + i] == m[lo + at + i];
    }
  }

  lemma Byte(m: seq<byte>, lo: nat, hi: nat, at: nat)
    requires lo + at + 1 <= hi <= |m|
    ensures U(m[lo..hi], at, 1) == m[lo + at] as nat
  {
    var f := m[lo..hi][at..at + 1];
    assert f[1..] == [] && f[0] == m[lo + at];
  }

  lemma Field2(m: seq<byte>, lo: nat, hi: nat, at: nat)
    requires lo + at + 2 <= hi <= |m|
    ensures U(m[lo..hi], at, 2) == Le2(m, lo + at)
  {
    hide LE;
    Slice(m, lo, hi, at, 2);
    LittleEndian2(m[lo + at..lo + at + 2]);
  }

  lemma Field4(m: seq<byte>, lo: nat, hi: nat, at: nat)
    requires lo + at + 4 <= hi <= |m|
    ensures U(m[lo..hi], at, 4) == Le4(m, lo + at)
  {
    hide LE;
    Slice(m, lo, hi, at, 4);
    LittleEndian4(m[lo + at..lo + at + 4]);
  }

  lemma Field8(m: seq<byte>, lo: nat, hi: nat, at: nat)
    requires lo + at + 8 <= hi <= |m|
    ensures U(m[lo..hi], at, 8) == Le8(m, lo + at)
  {
    hide LE;
    Slice(m, lo, hi, at, 8);
    LittleEndian8(m[lo + at..lo + at + 8]);
  }

  // ----- widths -----

  /** Elf32_Off is 32 bits wide, Elf64_Off 64; sums wrap at that width. */
  lemma OffsetWidths(c: Class, a: nat, b: nat)
    requires a < c.Modulus() && b < c.Modulus()
    ensures c.Class32? ==> AddW(c, a, b) == (a + b) % 0x1_0000_0000
    ensures c.Class64? ==> AddW(c, a, b) == (a + b) % 0x1_0000_0000_0000_0000
  {
  }

  /** The size check adds the int product of two 16-bit fields to the table's offset, sign and all. */
  lemma TableSum(c: Class, ent: nat, num: nat, off: nat)
    requires ent < 0x1_0000 && num < 0x1_0000 && off < c.Modulus()
    ensures var s := if ent * num < 0x8000_0000 then ent * num else ent * num - 0x1_0000_0000;
            AddW(c, TableBytes(c, ent, num), off) == (off + s) % c.Modulus()
  {
    ProductBound(ent, num, 0xffff);
    SumOf(c, Product(ent, num), TableBytes(c, ent, num), off);
  }

  lemma SumOf(c: Class, p: nat, t: nat, off: nat)
    requires p < 0x1_0000_0000 && off < c.Modulus()
    requires t == if p < 0x8000_0000 then p else p + c.Modulus() - 0x1_0000_0000
    ensures t < c.Modulus()
    ensures var s := if p < 0x8000_0000 then p else p - 0x1_0000_0000;
            AddW(c, t, off) == (off + s) % c.Modulus()
  {
    OffsetWidths(c, t, off);
    if p >= 0x8000_0000 {
      assert t + off == off + (p - 0x1_0000_0000) + c.Modulus();
    }
  }

  // ----- structures -----

  /** e_phoff, e_shoff, e_phentsize, e_phnum, e_shentsize, e_shnum, e_shstrndx. */
  lemma EhdrFields(m: seq<byte>)
    requires 64 <= |m|
    ensures EhdrAt(Class32, m)
            == Ehdr(Le4(m, 28), Le4(m, 32), Le2(m, 42), Le2(m, 44), Le2(m, 46), Le2(m, 48), Le2(m, 50))
    ensures EhdrAt(Class64, m)
            == Ehdr(Le8(m, 32), Le8(m, 40), Le2(m, 54), Le2(m, 56), Le2(m, 58), Le2(m, 60), Le2(m, 62))
  {
    hide U, Le2, Le4, Le8;
    assert m[..64] == m[0..64];
    Field4(m, 0, 64, 28);
    Field4(m, 0, 64, 32);
    Field2(m, 0, 64, 42);
    Field2(m, 0, 64, 44);
    Field2(m, 0, 64, 46);
    Field2(m, 0, 64, 48);
    Field2(m, 0, 64, 50);
    Field8(m, 0, 64, 32);
    Field8(m, 0, 64, 40);
    Field2(m, 0, 64, 54);
    Field2(m, 0, 64, 56);
    Field2(m, 0, 64, 58);
    Field2(m, 0, 64, 60);
    Field2(m, 0, 64, 62);
  }

  /** p_type, p_flags, p_offset, p_vaddr, p_paddr, p_filesz, p_memsz, p_align of a 32-bit program header. */
  lemma PhdrFields32(m: seq<byte>, o: nat)
    requires o + 32 <= |m|
    ensures Class32.PhdrSize() == 32
    ensures PhdrAt(Class32, m, o)
            == Phdr(Le4(m, o), Le4(m, o + 24), Le4(m, o + 4), Le4(m, o + 8),
                    Le4(m, o + 12), Le4(m, o + 16), Le4(m, o + 20), Le4(m, o + 28))
  {
    hide U, Le4;
    Field4(m, o, o + 32, 0);
    Field4(m, o, o + 32, 4);
    Field4(m, o, o + 32, 8);
    Field4(m, o, o + 32, 12);
    Field4(m, o, o + 32, 16);
    Field4(m, o, o + 32, 20);
    Field4(m, o, o + 32, 24);
    Field4(m, o, o + 32, 28);
  }

  /** The same fields of a 64-bit program header. */
  lemma PhdrFields64(m: seq<byte>, o: nat)
    requires o + 56 <= |m|
    ensures Class64.PhdrSize() == 56
    ensures PhdrAt(Class64, m, o)
            == Phdr(Le4(m, o), Le4(m, o + 4), Le8(m, o + 8), Le8(m, o + 16),
                    Le8(m, o + 24), Le8(m, o + 32), Le8(m, o + 40), Le8(m, o + 48))
  {
    hide U, Le4, Le8;
    Field4(m, o, o + 56, 0);
    Field4(m, o, o + 56, 4);
    Field8(m, o, o + 56, 8);
    Field8(m, o, o + 56, 16);
    Field8(m, o, o + 56, 24);
    Field8(m, o, o + 56, 32);
    Field8(m, o, o + 56, 40);
    Field8(m, o, o + 56, 48);
  }

  /** sh_type, sh_offset, sh_size, sh_link, sh_entsize. */
  lemma ShdrFields32(m: seq<byte>, o: nat)
    requires o + 40 <= |m|
    ensures Class32.ShdrSize() == 40
    ensures ShdrAt(Class32, m, o)
            == Shdr(Le4(m, o + 4), Le4(m, o + 16), Le4(m, o + 20), Le4(m, o + 24), Le4(m, o + 36))
  {
    hide U, Le4;
    Field4(m, o, o + 40, 4);
    Field4(m, o, o + 40, 16);
    Field4(m, o, o + 40, 20);
    Field4(m, o, o + 40, 24);
    Field4(m, o, o + 40, 36);
  }

  lemma ShdrFields64(m: seq<byte>, o: nat)
    requires o + 64 <= |m|
    ensures Class64.ShdrSize() == 64
    ensures ShdrAt(Class64, m, o)
            == Shdr(Le4(m, o + 4), Le8(m, o + 24), Le8(m, o + 32), Le4(m, o + 40), Le8(m, o + 56))
  {
    hide U, Le4, Le8;
    Field4(m, o, o + 64, 4);
    Field8(m, o, o + 64, 24);
    Field8(m, o, o + 64, 32);
    Field4(m, o, o + 64, 40);
    Field8(m, o, o + 64, 56);
  }

  /** st_name, st_info, st_shndx, st_value, st_size. */
  lemma SymFields32(m: seq<byte>, o: nat)
    requires o + 16 <= |m|
    ensures Class32.SymSize() == 16
    ensures SymAt(Class32, m, o)
            == Sym(Le4(m, o), m[o + 12] as nat, Le2(m, o + 14), Le4(m, o + 4), Le4(m, o + 8))
  {
    hide U, Le2, Le4;
    Field4(m, o, o + 16, 0);
    Byte(m, o, o + 16, 12);
    Field2(m, o, o + 16, 14);
    Field4(m, o, o + 16, 4);
    Field4(m, o, o + 16, 8);
  }

  lemma SymFields64(m: seq<byte>, o: nat)
    requires o + 24 <= |m|
    ensures Class64.SymSize() == 24
    ensures SymAt(Class64, m, o)
            == Sym(Le4(m, o), m[o + 4] as nat, Le2(m, o + 6), Le8(m, o + 8), Le8(m, o + 16))
  {
    hide U, Le2, Le4, Le8;
    Field4(m, o, o + 24, 0);
    Byte(m, o, o + 24, 4);
    Field2(m, o, o + 24, 6);
    Field8(m, o, o + 24, 8);
    Field8(m, o, o + 24, 16);
  }
}
