/** Parsed binaries on which nm goes wrong: a crash, a lost symbol, two names in the wrong order. */
module NmWitness {
  import opened Bytes
  import opened Layout
  import opened ParseSpec
  import opened NmSpec
  import opened NmFacts
  import opened Pipeline
  import opened SampleBinary

  /** The image parses; the two symbols behind the first have the chosen names, and the last the chosen type. */
  ghost predicate Chosen(m: seq<byte>, ch: Choice)
  {
    && SmallBuffer(m) && Parse(m).code == Success && |Parse(m).syms| == 3
    && EHDR_LEN <= |m| && Parse(m).strtab.Some?
    && Parse(m).strtab.value.sh_offset + ClassOf(m).ShdrSize() <= |m|
    && var x, syms := NmCtx(m), Parse(m).syms;
    && AllResolved(x, syms)
    && Key(x, syms[1]) == NameOf(ch.name1 as nat) && Key(x, syms[2]) == NameOf(ch.name2 as nat)
    && !Hidden(x, syms[1]) && (Hidden(x, syms[2]) <==> ch.info2 % 16 in {3, 4})
  }

  lemma SampleImage(c: Class, ch: Choice) returns (m: seq<byte>)
    requires Named(ch)
    ensures Chosen(m, ch)
  {
    hide Parse, Like, Key, Resolved, NameOf, SymAt, ShdrAt, EhdrAt, Hidden;
    m := Sample(c, 376, ch);
    SampleIsLike(c, 376, ch);
    SampleParses(c, m, ch);
    ParsedSymbols(m);
    LikeFacts(c, m, ch);
    Types(c, m, ch);
  }

  lemma Types(c: Class, m: seq<byte>, ch: Choice)
    requires Like(c, m, ch) && SmallBuffer(m) && EHDR_LEN <= |m| && Parse(m).strtab.Some? && ClassOf(m) == c
    requires Parse(m).strtab.value.sh_offset + c.ShdrSize() <= |m| && Parse(m).syms ==
               [WrapperOf(c, ch, 0), WrapperOf(c, ch, 1), WrapperOf(c, ch, 2)]
    requires AllResolved(NmCtx(m), Parse(m).syms)
    ensures var x, syms := NmCtx(m), Parse(m).syms;
            !Hidden(x, syms[1]) && (Hidden(x, syms[2]) <==> ch.info2 % 16 in {3, 4})
  {
    hide Parse, Resolved, Key, SymAt, ShdrAt, EhdrAt, PhdrAt, CStr, IdentOk, NameOff, Known, NameOf;
    assert SymAt(c, m, SymOff(c, 1)) == SymbolIs(ch, 1);
    assert SymAt(c, m, SymOff(c, 2)) == SymbolIs(ch, 2);
  }

  /** A visible symbol followed by one FILE symbol: nm follows a null pointer. */
  lemma NullPointerFollowed() returns (m: seq<byte>)
    ensures SmallBuffer(m) && Parse(m).code == Success && Parse(m).strtab.Some? && EHDR_LEN <= |m|
    ensures Parse(m).strtab.value.sh_offset + ClassOf(m).ShdrSize() <= |m| && AllResolved(NmCtx(m), Parse(m).syms)
    ensures NmOutput(NmCtx(m), Parse(m).syms).None?
  {
    hide Parse, Resolved, Hidden, Key, NmOutput, NmCtx, ShdrAt;
    m := SampleImage(Class64, Choice(3, 3, 4));
    var x, syms := NmCtx(m), Parse(m).syms;
    var t := Tail(syms);
    assert t == [syms[1], syms[2]] && t[..1] == [syms[1]];
    NmOfParsed(m);
  }

  /** The name of byte 127 does not beat the sentinel: its symbol is not listed. */
  lemma SymbolLost() returns (m: seq<byte>)
    ensures SmallBuffer(m) && Parse(m).code == Success && Parse(m).strtab.Some? && EHDR_LEN <= |m|
    ensures Parse(m).strtab.value.sh_offset + ClassOf(m).ShdrSize() <= |m| && AllResolved(NmCtx(m), Parse(m).syms)
    ensures var out := NmOutput(NmCtx(m), Parse(m).syms);
            out.Some? && |out.value| == 1 && |Visible(NmCtx(m), Tail(Parse(m).syms))| == 2
  {
    hide Parse, Resolved, Hidden, Key, NmOutput, NmCtx, ShdrAt, Rounds;
    m := SampleImage(Class32, Choice(1, 3, 0));
    var x, syms := NmCtx(m), Parse(m).syms;
    var l := [syms[1], syms[2]];
    SentinelMeaning([127]);
    SentinelMeaning([97, 65]);
    PairLost(x, syms[1], syms[2]);
    ListingOfVisible(x, syms[0], l);
    assert syms == [syms[0]] + l && Tail(syms) == l;
    NothingHidden(x, l);
  }

  /** Two names that differ by 135 are listed in the wrong order. */
  lemma NamesMisordered() returns (m: seq<byte>)
    ensures SmallBuffer(m) && Parse(m).code == Success && Parse(m).strtab.Some? && EHDR_LEN <= |m|
    ensures Parse(m).strtab.value.sh_offset + ClassOf(m).ShdrSize() <= |m| && AllResolved(NmCtx(m), Parse(m).syms)
    ensures var x := NmCtx(m); var out := NmOutput(x, Parse(m).syms);
            && out.Some? && |out.value| == 2 && AllResolved(x, out.value)
            && Strcmp(Key(x, out.value[0]), Key(x, out.value[1])) > 0
  {
    hide Parse, Resolved, Hidden, Key, NmOutput, NmCtx, ShdrAt, Rounds;
    m := SampleImage(Class64, Choice(6, 3, 0));
    var x, syms := NmCtx(m), Parse(m).syms;
    var l := [syms[1], syms[2]];
    SentinelMeaning([97, 65]);
    SentinelMeaning([97, 200]);
    assert Strcmp([97, 200], [97, 65]) == Strcmp([200], [65]);
    PairMisordered(x, syms[1], syms[2]);
    ListingOfVisible(x, syms[0], l);
    assert syms == [syms[0]] + l;
  }
}
