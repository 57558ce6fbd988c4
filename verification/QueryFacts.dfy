/** The query agrees with the loader, exactly where its own tests let it. */
module QueryFacts {
  import opened Bytes
  import opened Layout
  import opened ParseSpec
  import opened ParseFrame
  import opened WriteSpec
  import opened InjectSpec
  import opened Loader
  import opened InjectFacts
  import opened QuerySpec

  /** In a well-formed binary the segment search picks the one segment strictly containing the address. */
  lemma FoundSegment(m: seq<byte>, ps: seq<PhdrRef>, addr: nat) returns (k: nat)
    requires Ready(m, ps) && FindSegment(m, ps, addr).Some? && addr < TWO64
    ensures Maps(m, k, addr) && Slot(m, k) == PhdrAt(Class64, m, FindSegment(m, ps, addr).value.p_offset)
    ensures Slot(m, k).vaddr < addr
    ensures Locate(m, ps, addr) == Translate(Slot(m, k), addr)
  {
    hide PhdrAt, EhdrAt, FindSegment;
    var w := FindSegment(m, ps, addr).value;
    OnTableOf(m, ps, w);
    k := IndexOf(m, w);
    assert IsLoad(m, k);
    assert SegmentOk(m, Slot(m, k));
  }

  /** The address just behind a segment. */
  ghost function EndOf(p: Phdr): nat
  {
    p.vaddr + p.memsz
  }

  /** The query cannot tell the segment from others at a: a is its start, or its end computation wraps to zero. */
  ghost predicate Overlooked(p: Phdr, a: nat)
  {
    a == p.vaddr || EndOf(p) == TWO64
  }

  lemma ContainsIs(m: seq<byte>, k: nat, addr: nat)
    requires TableIn(m) && LoadsOk(m) && Maps(m, k, addr)
    ensures Contains(Slot(m, k), addr) <==> !Overlooked(Slot(m, k), addr)
  {
    hide Slot;
    assert SegmentOk(m, Slot(m, k));
  }

  /**
   * Where the query places an address of segment k: nowhere when it overlooks the
   * segment, in the "uninitialised" part when the address is more than p_offset +
   * p_filesz above the start, and at the file byte of the loader's formula otherwise.
   */
  lemma LocateIs(m: seq<byte>, ps: seq<PhdrRef>, k: nat, addr: nat)
    requires Ready(m, ps) && Maps(m, k, addr) && addr < TWO64 && |m| < 0x8000_0000_0000_0000
    ensures var p := Slot(m, k);
            Locate(m, ps, addr)
            == if Overlooked(p, addr) then NotFound
               else if p.vaddr + p.offset + p.filesz < addr then Uninitialised
               else At(p.offset + (addr - p.vaddr))
  {
    hide PhdrAt, EhdrAt, FindSegment, LoadsOk, ListOk, Contains;
    ContainsIs(m, k, addr);
    TableWrapper(m, ps, k);
    if FindSegment(m, ps, addr).Some? {
      var j := FoundSegment(m, ps, addr);
      ImageIs(m, k, addr);
      ContainsIs(m, j, addr);
      assert Contains(Slot(m, j), addr);
      assert SegmentOk(m, Slot(m, k)) by { LoadOk(m, k); }
    } else {
      assert !Contains(PhdrAt(Class64, m, ps[k].p_offset), addr);
    }
  }

  lemma LoadOk(m: seq<byte>, k: nat)
    requires TableIn(m) && LoadsOk(m) && IsLoad(m, k)
    ensures SegmentOk(m, Slot(m, k))
  {
  }

  /** The search misses an address exactly when it is unmapped or its segment is overlooked. */
  lemma MissedAddresses(m: seq<byte>, ps: seq<PhdrRef>, addr: nat)
    requires Ready(m, ps) && addr < TWO64 && |m| < 0x8000_0000_0000_0000
    ensures Locate(m, ps, addr) == NotFound
            <==> !Mapped(m, addr) || exists k :: Maps(m, k, addr) && Overlooked(Slot(m, k), addr)
  {
    hide PhdrAt, EhdrAt, FindSegment, LoadsOk, ListOk, Translate;
    if Mapped(m, addr) {
      var k: nat :| Maps(m, k, addr);
      LocateIs(m, ps, k, addr);
      ImageIs(m, k, addr);
    } else if FindSegment(m, ps, addr).Some? {
      var k := FoundSegment(m, ps, addr);
      assert false;
    }
  }

  /**
   * The query reports an address as uninitialised exactly when it lies more than
   * p_offset + p_filesz above the start of its segment.  That is always zero-filled
   * memory, but with a nonzero p_offset not all of it.
   */
  lemma ReportedUninitialised(m: seq<byte>, ps: seq<PhdrRef>, addr: nat)
    requires Ready(m, ps) && addr < TWO64 && |m| < 0x8000_0000_0000_0000
    ensures Locate(m, ps, addr) == Uninitialised
            <==> exists k :: Maps(m, k, addr) && !Overlooked(Slot(m, k), addr)
                             && Slot(m, k).vaddr + Slot(m, k).offset + Slot(m, k).filesz < addr
    ensures Locate(m, ps, addr) == Uninitialised ==> Image(m, addr) == Some(0)
  {
    hide PhdrAt, EhdrAt, FindSegment, LoadsOk, ListOk, Translate;
    if Mapped(m, addr) {
      var k: nat :| Maps(m, k, addr);
      LocateIs(m, ps, k, addr);
      ImageIs(m, k, addr);
    } else {
      MissedAddresses(m, ps, addr);
    }
  }

  /**
   * A READ of a symbol agrees with the memory image at exactly those bytes that are
   * file-backed, or whose file byte happens to be zero.
   */
  lemma QueryAgreesWithLoader(m: seq<byte>, ps: seq<PhdrRef>, addr: nat, i: nat) returns (k: nat)
    requires Ready(m, ps) && addr < TWO64 && Locate(m, ps, addr).At? && |m| < 0x8000_0000_0000_0000
    ensures Maps(m, k, addr) && Slot(m, k).vaddr < addr
    ensures var p, off := Slot(m, k), Locate(m, ps, addr).off;
            addr + i < p.vaddr + p.memsz && off + i < |m| ==>
              (Image(m, addr + i) == Some(m[off + i]) <==> addr + i < p.vaddr + p.filesz || m[off + i] == 0)
    ensures var p, off := Slot(m, k), Locate(m, ps, addr).off;
            addr + i < p.vaddr + p.filesz ==> off + i < |m| && Image(m, addr + i) == Some(m[off + i])
  {
    hide PhdrAt, EhdrAt, FindSegment;
    k := FoundSegment(m, ps, addr);
    assert SegmentOk(m, Slot(m, k));
    hide Slot, LoadsOk;
    if addr + i < Slot(m, k).vaddr + Slot(m, k).memsz {
      ImageIs(m, k, addr + i);
    }
  }

  /** Byte i of a content at off is the byte the loader shows at addr + i. */
  ghost predicate ShowsByte(m: seq<byte>, addr: nat, off: nat, i: nat)
    requires TableIn(m) && LoadsOk(m)
  {
    off + i < |m| && Image(m, addr + i) == Some(m[off + i])
  }

  /**
   * READ refines the loader: the first matching symbol, when it lies strictly above the
   * start of a segment and wholly in its file-backed part, is found, and the bytes at
   * its place are those the loader shows.
   */
  lemma ReadRefinesLoader(m: seq<byte>, ps: seq<PhdrRef>, syms: seq<SymRef>, name: seq<byte>, k: nat)
    requires Ready(m, ps) && SymRefsIn(m, syms) && |m| < 0x8000_0000_0000_0000
    requires FirstSymbol(m, syms, name).Some? && IsLoad(m, k)
    requires var y, p := SymAt(Class64, m, FirstSymbol(m, syms, name).value.sym_offset), Slot(m, k);
             && p.vaddr < y.value && y.value + y.size <= p.vaddr + p.filesz && EndOf(p) < TWO64
    ensures var y, p := SymAt(Class64, m, FirstSymbol(m, syms, name).value.sym_offset), Slot(m, k);
            var off := p.offset + (y.value - p.vaddr);
            && Resolve(m, ps, syms, name) == Resolution(At(off), y.size, y.value)
            && off + y.size <= |m|
            && forall i :: 0 <= i < y.size ==> ShowsByte(m, y.value, off, i)
  {
    hide PhdrAt, EhdrAt, SymAt, FindSegment, Locate, FirstSymbol, Slot, LoadsOk, ListOk;
    var y, p := SymAt(Class64, m, FirstSymbol(m, syms, name).value.sym_offset), Slot(m, k);
    LoadOk(m, k);
    LocateIs(m, ps, k, y.value);
    var off := p.offset + (y.value - p.vaddr);
    forall i | 0 <= i < y.size ensures ShowsByte(m, y.value, off, i) {
      ImageIs(m, k, y.value + i);
    }
  }

  // ----- injected segments -----

  /** Every address strictly inside an injected segment translates into the injected code. */
  lemma InjectedAddressResolves(m: seq<byte>, ps: seq<PhdrRef>, code: seq<byte>, m': seq<byte>, ps': seq<PhdrRef>,
                                addr: nat)
    requires Step(m, ps, code, m', ps') && Target(m, ps) + |code| < TWO64
    requires Target(m, ps) < addr < Target(m, ps) + |code|
    ensures Ready(m', ps') && FirstNote(m, ps).Some?
    ensures Locate(m', ps', addr) == At(PageUp(|m|) + (addr - Target(m, ps)))
    ensures forall w :: w in ps' && w.p_offset == SlotOff(m, Victim(m, ps)) ==>
              && w.p_offset + 56 <= |m'|
              && Contains(PhdrAt(Class64, m', w.p_offset), addr)
              && Translate(PhdrAt(Class64, m', w.p_offset), addr) == Locate(m', ps', addr)
  {
    hide PhdrAt, EhdrAt, FindSegment, HighestLoad, FirstNote, Injected, ImageStep, Outcome, Room;
    InjectionExtendsImage(m, ps, code, m', ps');
    StepFacts(m, ps, code, m', ps');
    LengthGrows(m, m', code, SlotOff(m, Victim(m, ps)), Target(m, ps));
    hide Step;
    var s, va := Victim(m, ps), Target(m, ps);
    var p := NewSegment(PageUp(|m|), va, |code|);
    assert Slot(m', s) == p && Maps(m', s, addr);
    TableWrapper(m', ps', s);
    assert Contains(PhdrAt(Class64, m', ps'[s].p_offset), addr);
    var k := FoundSegment(m', ps', addr);
    ImageIs(m', s, addr);
    assert k == s;
  }

  // ----- writing -----

  /** The range overlaps no listed program header and no listed symbol entry. */
  ghost predicate ClearOfTables(ps: seq<PhdrRef>, syms: seq<SymRef>, lo: nat, hi: nat)
  {
    && (forall i :: 0 <= i < |ps| ==> hi <= ps[i].p_offset || ps[i].p_offset + 56 <= lo)
    && (forall i :: 0 <= i < |syms| ==> hi <= syms[i].sym_offset || syms[i].sym_offset + 24 <= lo)
  }

  lemma {:induction false} FirstSymbolFrame(m: seq<byte>, m': seq<byte>, syms: seq<SymRef>, name: seq<byte>)
    requires SymRefsIn(m, syms) && SymRefsIn(m', syms)
    requires forall i :: 0 <= i < |syms| ==>
               SymAt(Class64, m', syms[i].sym_offset) == SymAt(Class64, m, syms[i].sym_offset)
    ensures FirstSymbol(m', syms, name) == FirstSymbol(m, syms, name)
  {
    hide SymAt;
    if syms != [] {
      FirstSymbolFrame(m, m', syms[1..], name);
    }
  }

  lemma {:induction false} FindSegmentFrame(m: seq<byte>, m': seq<byte>, ps: seq<PhdrRef>, addr: nat)
    requires PhdrRefsIn(Class64, m, ps) && PhdrRefsIn(Class64, m', ps)
    requires forall i :: 0 <= i < |ps| ==> PhdrAt(Class64, m', ps[i].p_offset) == PhdrAt(Class64, m, ps[i].p_offset)
    ensures FindSegment(m', ps, addr) == FindSegment(m, ps, addr)
  {
    hide PhdrAt;
    if ps != [] {
      FindSegmentFrame(m, m', ps[1..], addr);
    }
  }

  /** A READ after a successful WRITE resolves to the same place and finds the written bytes there. */
  lemma WriteThenRead(m: seq<byte>, ps: seq<PhdrRef>, syms: seq<SymRef>, name: seq<byte>, data: seq<byte>)
    requires PhdrRefsIn(Class64, m, ps) && SymRefsIn(m, syms)
    requires var q := Resolve(m, ps, syms, name);
             && q.place.At? && |data| == q.size && q.place.off + q.size <= |m|
             && ClearOfTables(ps, syms, q.place.off, q.place.off + q.size)
    ensures var q := Resolve(m, ps, syms, name); var m' := Splice(m, q.place.off, data);
            && PhdrRefsIn(Class64, m', ps) && SymRefsIn(m', syms)
            && Resolve(m', ps, syms, name) == q
            && m'[q.place.off..q.place.off + q.size] == data
            && forall i :: 0 <= i < |m| && !(q.place.off <= i < q.place.off + q.size) ==> m'[i] == m[i]
  {
    hide PhdrAt, SymAt, FindSegment, FirstSymbol, Splice;
    var q := Resolve(m, ps, syms, name);
    var m' := Splice(m, q.place.off, data);
    forall i | 0 <= i < |ps| ensures PhdrAt(Class64, m', ps[i].p_offset) == PhdrAt(Class64, m, ps[i].p_offset) {
      PhdrFrame(Class64, m, m', ps[i].p_offset);
    }
    forall i | 0 <= i < |syms| ensures SymAt(Class64, m', syms[i].sym_offset) == SymAt(Class64, m, syms[i].sym_offset) {
      SymFrame(Class64, m, m', syms[i].sym_offset);
    }
    FirstSymbolFrame(m, m', syms, name);
    FindSegmentFrame(m, m', ps, q.addr);
  }

  /**
   * A WRITE changes the memory image exactly at the addresses backed by the symbol's
   * file range; segments, mappings and unmapped addresses stay.
   */
  lemma WriteChangesImage(m: seq<byte>, ps: seq<PhdrRef>, off: nat, data: seq<byte>, a: nat)
    requires Ready(m, ps) && off + |data| <= |m| && EHDR_LEN <= off && ClearOfTables(ps, [], off, off + |data|)
    ensures var m' := Splice(m, off, data);
            && Ready(m', ps) && (Mapped(m', a) <==> Mapped(m, a))
            && (!Mapped(m, a) ==> Image(m', a) == None)
            && forall k :: Maps(m, k, a) ==>
                 && Maps(m', k, a) && FileByte(m', k, a) == FileByte(m, k, a)
                 && Image(m', a)
                    == match FileByte(m, k, a)
                       case Some(i) => if off <= i < off + |data| then Some(data[i - off]) else Image(m, a)
                       case None => Image(m, a)
  {
    hide PhdrAt, EhdrAt, Splice, Image;
    var m' := Splice(m, off, data);
    WriteKeepsHeaders(m, ps, off, data);
    hide Slot, LoadsOk, ListOk;
    if !Mapped(m, a) {
      assert forall k: nat :: Maps(m', k, a) ==> Maps(m, k, a);
      NotMapped(m', a);
    }
    forall k: nat | Maps(m, k, a)
      ensures Maps(m', k, a) && FileByte(m', k, a) == FileByte(m, k, a)
      ensures Image(m, a) == Some(SegByte(m, k, a)) && Image(m', a) == Some(SegByte(m', k, a))
    {
      ImageIs(m, k, a);
      ImageIs(m', k, a);
    }
    assert forall i :: off <= i < off + |data| ==> m'[i] == m'[off..off + |data|][i - off];
  }

  lemma WriteKeepsHeaders(m: seq<byte>, ps: seq<PhdrRef>, off: nat, data: seq<byte>)
    requires Ready(m, ps) && off + |data| <= |m| && EHDR_LEN <= off && ClearOfTables(ps, [], off, off + |data|)
    ensures var m' := Splice(m, off, data);
            && Ready(m', ps) && Phnum(m') == Phnum(m)
            && forall j :: 0 <= j < Phnum(m) ==> Slot(m', j) == Slot(m, j)
  {
    hide PhdrAt, EhdrAt, Splice;
    var m' := Splice(m, off, data);
    EhdrFrame(Class64, m, m');
    forall j | 0 <= j < Phnum(m) ensures Slot(m', j) == Slot(m, j) {
      TableWrapper(m, ps, j);
      PhdrFrame(Class64, m, m', SlotOff(m, j));
    }
    hide Slot;
    forall j: nat | IsLoad(m', j) ensures SegmentOk(m', Slot(m', j)) {
      assert SegmentOk(m, Slot(m, j));
    }
  }

  // ----- the two searches -----

  /** The symbol found is the first whose name starts with the query and whose value and size are not zero. */
  lemma {:induction false} FirstSymbolIndex(m: seq<byte>, syms: seq<SymRef>, name: seq<byte>) returns (i: nat)
    requires SymRefsIn(m, syms) && FirstSymbol(m, syms, name).Some?
    ensures i < |syms| && FirstSymbol(m, syms, name) == Some(syms[i])
    ensures name <= syms[i].name
    ensures SymAt(Class64, m, syms[i].sym_offset).value != 0 && SymAt(Class64, m, syms[i].sym_offset).size != 0
    ensures forall j :: 0 <= j < i && name <= syms[j].name ==>
              SymAt(Class64, m, syms[j].sym_offset).value == 0 || SymAt(Class64, m, syms[j].sym_offset).size == 0
  {
    hide SymAt;
    var y := SymAt(Class64, m, syms[0].sym_offset);
    if Matches(name, syms[0]) && y.value != 0 && y.size != 0 {
      i := 0;
    } else {
      i := FirstSymbolIndex(m, syms[1..], name);
      forall j | 0 <= j < i + 1 && name <= syms[j].name
        ensures SymAt(Class64, m, syms[j].sym_offset).value == 0 || SymAt(Class64, m, syms[j].sym_offset).size == 0
      {
        if j > 0 { assert syms[1..][j - 1] == syms[j]; }
      }
      i := i + 1;
    }
  }

  /** The segment test of the source, for sums that do not wrap: a PT_LOAD, 1, strictly around the address. */
  predicate StrictlyInside(p: Phdr, addr: nat)
  {
    p.ptype == 1 && p.vaddr < addr && addr < (p.vaddr + p.memsz) % 0x1_0000_0000_0000_0000
  }

  /** The wrapper found is the first whose segment has the address strictly inside. */
  lemma {:induction false} FindSegmentIndex(m: seq<byte>, ps: seq<PhdrRef>, addr: nat) returns (i: nat)
    requires PhdrRefsIn(Class64, m, ps) && FindSegment(m, ps, addr).Some?
    ensures i < |ps| && FindSegment(m, ps, addr) == Some(ps[i])
    ensures StrictlyInside(PhdrAt(Class64, m, ps[i].p_offset), addr)
    ensures forall j :: 0 <= j < i ==> !StrictlyInside(PhdrAt(Class64, m, ps[j].p_offset), addr)
  {
    hide PhdrAt;
    if Contains(PhdrAt(Class64, m, ps[0].p_offset), addr) {
      i := 0;
    } else {
      i := FindSegmentIndex(m, ps[1..], addr);
      forall j | 0 <= j < i + 1 ensures !StrictlyInside(PhdrAt(Class64, m, ps[j].p_offset), addr) {
        if j > 0 { assert ps[1..][j - 1] == ps[j]; }
      }
      i := i + 1;
    }
  }

  /** From the first such segment: p_offset plus the distance, unless that is above p_offset + p_filesz. */
  lemma LocateFirst(m: seq<byte>, ps: seq<PhdrRef>, addr: nat, i: nat)
    requires PhdrRefsIn(Class64, m, ps) && addr < TWO64 && i < |ps|
    requires StrictlyInside(PhdrAt(Class64, m, ps[i].p_offset), addr)
    requires forall j :: 0 <= j < i ==> !StrictlyInside(PhdrAt(Class64, m, ps[j].p_offset), addr)
    requires var p := PhdrAt(Class64, m, ps[i].p_offset);
             p.offset + p.filesz < TWO64 && p.offset + (addr - p.vaddr) < TWO64
    ensures var p := PhdrAt(Class64, m, ps[i].p_offset);
            Locate(m, ps, addr)
            == if addr - p.vaddr > p.offset + p.filesz then Uninitialised else At(p.offset + (addr - p.vaddr))
  {
    hide PhdrAt, FindSegment;
    SegmentFoundAt(m, ps, addr, i);
  }

  lemma SegmentFoundAt(m: seq<byte>, ps: seq<PhdrRef>, addr: nat, i: nat)
    requires PhdrRefsIn(Class64, m, ps) && i < |ps| && StrictlyInside(PhdrAt(Class64, m, ps[i].p_offset), addr)
    requires forall j :: 0 <= j < i ==> !StrictlyInside(PhdrAt(Class64, m, ps[j].p_offset), addr)
    ensures FindSegment(m, ps, addr) == Some(ps[i])
  {
    hide PhdrAt, FindSegment;
    assert Contains(PhdrAt(Class64, m, ps[i].p_offset), addr);
    var k := FindSegmentIndex(m, ps, addr);
  }

  // ----- lookup by name -----

  /** The symbol can be queried at all. */
  predicate Usable(m: seq<byte>, s: SymRef)
    requires s.sym_offset + 24 <= |m|
  {
    SymAt(Class64, m, s.sym_offset).value != 0 && SymAt(Class64, m, s.sym_offset).size != 0
  }

  /** The first usable symbol with exactly this name. */
  function FirstExact(m: seq<byte>, syms: seq<SymRef>, name: seq<byte>): Option<SymRef>
    requires SymRefsIn(m, syms)
  {
    if syms == [] then None
    else if syms[0].name == name && Usable(m, syms[0]) then Some(syms[0])
    else FirstExact(m, syms[1..], name)
  }

  /** A usable symbol whose name properly extends the query comes before any usable exact match. */
  ghost predicate Shadowed(m: seq<byte>, syms: seq<SymRef>, name: seq<byte>)
    requires SymRefsIn(m, syms)
  {
    exists i :: 0 <= i < |syms| && name < syms[i].name && Usable(m, syms[i])
                && forall j :: 0 <= j < i ==> syms[j].name != name || !Usable(m, syms[j])
  }

  /** The prefix match finds what an exact lookup finds if and only if no usable longer name comes first. */
  lemma {:induction false} PrefixMatchIsExact(m: seq<byte>, syms: seq<SymRef>, name: seq<byte>)
    requires SymRefsIn(m, syms)
    ensures FirstSymbol(m, syms, name) == FirstExact(m, syms, name) <==> !Shadowed(m, syms, name)
    ensures Shadowed(m, syms, name) ==>
              FirstSymbol(m, syms, name).Some? && name < FirstSymbol(m, syms, name).value.name
  {
    hide SymAt;
    if syms != [] {
      PrefixMatchIsExact(m, syms[1..], name);
      if Matches(name, syms[0]) && Usable(m, syms[0]) {
        ExactName(m, syms[1..], name);
        assert syms[0].name != name ==> name < syms[0].name;
      } else {
        ShadowedTail(m, syms, name);
      }
    }
  }

  lemma {:induction false} ExactName(m: seq<byte>, syms: seq<SymRef>, name: seq<byte>)
    requires SymRefsIn(m, syms)
    ensures FirstExact(m, syms, name).Some? ==> FirstExact(m, syms, name).value.name == name
  {
    hide SymAt;
    if syms != [] {
      ExactName(m, syms[1..], name);
    }
  }

  lemma ShadowedTail(m: seq<byte>, syms: seq<SymRef>, name: seq<byte>)
    requires SymRefsIn(m, syms) && syms != []
    requires !(Matches(name, syms[0]) && Usable(m, syms[0]))
    ensures Shadowed(m, syms, name) <==> Shadowed(m, syms[1..], name)
  {
    hide SymAt, Usable;
    var rest := syms[1..];
    if Shadowed(m, syms, name) {
      var i: nat :| i < |syms| && name < syms[i].name && Usable(m, syms[i])
                    && forall j :: 0 <= j < i ==> syms[j].name != name || !Usable(m, syms[j]);
      assert i > 0 && rest[i - 1] == syms[i];
      assert forall j :: 0 <= j < i - 1 ==> rest[j] == syms[j + 1];
    }
    if Shadowed(m, rest, name) {
      var i: nat :| i < |rest| && name < rest[i].name && Usable(m, rest[i])
                    && forall j :: 0 <= j < i ==> rest[j].name != name || !Usable(m, rest[j]);
      assert syms[i + 1] == rest[i];
      assert forall j :: 0 < j < i + 1 ==> syms[j] == rest[j - 1];
    }
  }
}
