/** One parsed binary on which the query finds the wrong symbol, no place, and the wrong byte. */
module QueryWitness {
  import opened Bytes
  import opened Layout
  import opened ParseSpec
  import opened WriteSpec
  import opened InjectSpec
  import opened Loader
  import opened InjectFacts
  import opened InjectWrite
  import opened QuerySpec
  import opened QueryFacts
  import opened Pipeline
  import opened Specimen
  import opened SampleBinary

  /** "aA" is the second symbol, at the segment's start; "a" the third, one address behind it. */
  const NAMES: Choice := Choice(3, 9, 0)

  lemma LoaderView(m: seq<byte>)
    requires Like(Class64, m, NAMES)
    ensures TableIn(m) && LoadsOk(m) && IsLoad(m, 0) && Slot(m, 0) == SEGMENT
  {
    hide EhdrAt, PhdrAt, ShdrAt, SymAt, CStr, IdentOk, Known, SymbolIs;
    assert SlotOff(m, 0) == 64;
    assert forall k :: IsLoad(m, k) ==> k == 0;
  }

  lemma Symbols(m: seq<byte>, syms: seq<SymRef>)
    requires Like(Class64, m, NAMES) && SymRefsIn(m, syms)
    requires syms == [WrapperOf(Class64, NAMES, 0), WrapperOf(Class64, NAMES, 1), WrapperOf(Class64, NAMES, 2)]
    ensures FirstSymbol(m, syms, [97]) == Some(syms[1]) && FirstExact(m, syms, [97]) == Some(syms[2])
    ensures FirstSymbol(m, syms, [97, 65]) == Some(syms[1])
    ensures SymAt(Class64, m, syms[1].sym_offset).value == 4096 && SymAt(Class64, m, syms[2].sym_offset).value == 4097
  {
    hide EhdrAt, PhdrAt, ShdrAt, SymAt, CStr, IdentOk, Known;
    assert SymAt(Class64, m, SymOff(Class64, 1)) == SymbolIs(NAMES, 1);
    assert SymAt(Class64, m, SymOff(Class64, 2)) == SymbolIs(NAMES, 2);
    assert syms[1..][0] == syms[1] && syms[1..][1..] == syms[2..] && syms[2..][0] == syms[2];
    assert FirstExact(m, syms[2..], [97]) == Some(syms[2]);
    assert FirstExact(m, syms[1..], [97]) == FirstExact(m, syms[2..], [97]);
  }

  /**
   * Asked for "a" the query answers for "aA", although a usable symbol "a" exists; it does
   * not find the place of "aA", although its address is mapped; and it places the address
   * of "a", which the loader fills with zero, at a byte that is not zero.
   */
  lemma QueryFails() returns (m: seq<byte>)
    ensures SmallBuffer(m) && Parse(m).code == Success
    ensures PhdrRefsIn(Class64, m, Parse(m).phdrs) && SymRefsIn(m, Parse(m).syms) && TableIn(m) && LoadsOk(m)
    ensures var syms := Parse(m).syms;
            && |syms| == 3
            && FirstExact(m, syms, syms[2].name) == Some(syms[2])
            && FirstSymbol(m, syms, syms[2].name) == Some(syms[1]) && syms[1] != syms[2]
    ensures var ps, syms := Parse(m).phdrs, Parse(m).syms;
            var q := Resolve(m, ps, syms, syms[1].name);
            FirstSymbol(m, syms, syms[1].name) == Some(syms[1]) && Mapped(m, q.addr) && q.place == NotFound
    ensures var ps, syms := Parse(m).phdrs, Parse(m).syms;
            var a := SymAt(Class64, m, syms[2].sym_offset).value;
            && Image(m, a) == Some(0)
            && Locate(m, ps, a).At? && Locate(m, ps, a).off < |m| && m[Locate(m, ps, a).off] != 0
  {
    hide Parse, Like, EhdrAt, PhdrAt, SymAt, FirstSymbol, FirstExact, Locate, LoadsOk, ListOk, Image, NameOf;
    m := Sample(Class64, 376, NAMES);
    SampleIsLike(Class64, 376, NAMES);
    SampleParses(Class64, m, NAMES);
    LikeFacts(Class64, m, NAMES);
    LoaderView(m);
    ParsedIsReady(m);
    ParsedSymbols(m);
    var ps, syms := Parse(m).phdrs, Parse(m).syms;
    Symbols(m, syms);
    Names();
    LocateIs(m, ps, 0, 4096);
    LocateIs(m, ps, 0, 4097);
    assert Maps(m, 0, 4096) && Maps(m, 0, 4097);
    ImageIs(m, 0, 4097);
    assert m[249] == 127 by { NonzeroByte(m); }
  }

  lemma Names()
    ensures NameOf(NameOff(NAMES, 1)) == [97, 65] && NameOf(NameOff(NAMES, 2)) == [97]
  {
  }

  lemma NonzeroByte(m: seq<byte>)
    requires Like(Class64, m, NAMES)
    ensures 249 < |m| && m[249] == 127
  {
    hide EhdrAt, PhdrAt, ShdrAt, SymAt, CStr, IdentOk, Known, SymbolIs;
  }
}
