/** A successful parse delivers what the listing and the query ask for. */
module Pipeline {
  import opened Bytes
  import opened Layout
  import opened ParseSpec
  import opened ParseFacts
  import opened NmSpec
  import opened NmFacts
  import opened NmTables
  import opened QuerySpec

  /** The listing's view of a parsed buffer. */
  ghost function NmCtx(m: seq<byte>): Ctx
    requires SmallBuffer(m) && EHDR_LEN <= |m| && Parse(m).strtab.Some?
    requires Parse(m).strtab.value.sh_offset + ClassOf(m).ShdrSize() <= |m|
  {
    Ctx(ClassOf(m), m, ShdrAt(ClassOf(m), m, Parse(m).strtab.value.sh_offset).offset)
  }

  /** Every symbol a successful parse lists is readable, and is listed under its own name. */
  lemma ParsedSymbols(m: seq<byte>)
    requires SmallBuffer(m) && Parse(m).code == Success && Parse(m).syms != []
    ensures EHDR_LEN <= |m| && Parse(m).strtab.Some?
    ensures Parse(m).strtab.value.sh_offset + ClassOf(m).ShdrSize() <= |m|
    ensures AllResolved(NmCtx(m), Parse(m).syms)
    ensures forall i :: 0 <= i < |Parse(m).syms| ==> Key(NmCtx(m), Parse(m).syms[i]) == Parse(m).syms[i].name
    ensures ClassOf(m) == Class64 ==> SymRefsIn(m, Parse(m).syms)
  {
    hide EhdrAt, ShdrAt, SymAt, CStr, Readable, SymLoop, LastSymtab, FindStrtab, SectionOf, TablesFit, ListMeans;
    EhdrOkFacts(m);
    var k := SymtabAndStrtabAgree(m);
    var c, p := ClassOf(m), Parse(m);
    var env := SymEnvOf(c, m, p.shdrs, LastSymtab(c, m, p.shdrs).value, p.strtab);
    SymbolTableMeaning(c, m, env);
    forall i | 0 <= i < |p.syms|
      ensures Resolved(NmCtx(m), p.syms[i]) && Key(NmCtx(m), p.syms[i]) == p.syms[i].name
    {
      OneSymbol(c, m, env, p.syms, i);
    }
  }

  lemma OneSymbol(c: Class, m: seq<byte>, env: SymEnv, syms: seq<SymRef>, i: nat)
    requires EnvOk(c, env) && env.strOff.Some? && ListMeans(c, m, env, syms, env.tab.offset, 0, 0) && i < |syms|
    ensures Resolved(Ctx(c, m, env.strOff.value), syms[i])
    ensures Key(Ctx(c, m, env.strOff.value), syms[i]) == syms[i].name
  {
    hide SymAt, CStr, SectionOf, EntryOff;
    assert MeansAt(c, m, env, syms, env.tab.offset, 0, 0, i);
    var o := AddW(c, SymAt(c, m, syms[i].sym_offset).name, env.strOff.value);
    CStrMeaning(m, o, syms[i].name);
  }

  /**
   * nm on a parsed binary: it completes exactly when no symbol is visible or an even
   * number of hidden ones ends the table, and then prints the visible symbols behind
   * the first, stably sorted by name.
   */
  lemma NmOfParsed(m: seq<byte>)
    requires SmallBuffer(m) && Parse(m).code == Success && Parse(m).syms != []
    ensures EHDR_LEN <= |m| && Parse(m).strtab.Some?
    ensures Parse(m).strtab.value.sh_offset + ClassOf(m).ShdrSize() <= |m|
    ensures var x, syms := NmCtx(m), Parse(m).syms;
            && AllResolved(x, syms)
            && (NmOutput(x, syms).Some? <==> Visible(x, Tail(syms)) == [] || TrailingHidden(x, Tail(syms)) % 2 == 0)
            && (NmOutput(x, syms).Some? && Sortable(x, Tail(syms)) ==>
                  && AllResolved(x, NmOutput(x, syms).value)
                  && IsStableSort(x, NmOutput(x, syms).value, Visible(x, Tail(syms)))
                  && forall i, j :: 0 <= i < j < |NmOutput(x, syms).value| ==>
                       Strcmp(Key(x, NmOutput(x, syms).value[i]), Key(x, NmOutput(x, syms).value[j])) <= 0)
  {
    hide EhdrAt, ShdrAt, SymAt, Parse, Resolved, Hidden, Key, NmOutput, WithKey, Sortable;
    ParsedSymbols(m);
    var x, syms := NmCtx(m), Parse(m).syms;
    NmCompletes(x, syms);
    if NmOutput(x, syms).Some? && Sortable(x, Tail(syms)) {
      NmListsStableSort(x, syms);
    }
  }

  /** A successful parse lists the symbols by increasing offset. */
  lemma ParsedIncreasing(m: seq<byte>)
    requires SmallBuffer(m) && Parse(m).code == Success
    ensures Increasing(Parse(m).syms)
  {
    hide EhdrAt, ShdrAt, SymAt, CStr, Readable, SymLoop, LastSymtab, FindStrtab, SectionOf, TablesFit;
    hide ListMeans, CountIs;
    EhdrOkFacts(m);
    var k := SymtabAndStrtabAgree(m);
    var c, p := ClassOf(m), Parse(m);
    var env := SymEnvOf(c, m, p.shdrs, LastSymtab(c, m, p.shdrs).value, p.strtab);
    SymbolTableMeaning(c, m, env);
    forall i, j | 0 <= i < j < |p.syms| ensures p.syms[i].sym_offset < p.syms[j].sym_offset {
      DistinctOffsets(c, m, env, p.syms, i, j);
    }
  }

  /** No symbol is listed twice. */
  lemma ParsedDistinct(m: seq<byte>)
    requires SmallBuffer(m) && Parse(m).code == Success
    ensures NoRepeats(Parse(m).syms)
  {
    hide Parse;
    ParsedIncreasing(m);
  }

  lemma DistinctOffsets(c: Class, m: seq<byte>, env: SymEnv, syms: seq<SymRef>, i: nat, j: nat)
    requires EnvOk(c, env) && ListMeans(c, m, env, syms, env.tab.offset, 0, 0)
    requires CountIs(|syms|, 0, env.tab.entsize, env.tab.size) && i < j < |syms|
    ensures syms[i].sym_offset < syms[j].sym_offset
  {
    hide SymAt, StringAt, SectionOf, EntryOff;
    assert MeansAt(c, m, env, syms, env.tab.offset, 0, 0, i);
    assert MeansAt(c, m, env, syms, env.tab.offset, 0, 0, j);
    var ent := env.tab.entsize;
    EntryOffStep(0, ent, |syms| - 1);
    EntryOffMono(env.tab.offset, ent, i, j);
  }

  /**
   * nm on a parsed binary whose symbols behind the first are all visible and whose names
   * fit into a char pairwise: listed in stable order if and only if the stuck symbols are
   * in place.
   */
  lemma NmOfVisibleTable(m: seq<byte>)
    requires SmallBuffer(m) && Parse(m).code == Success && Parse(m).syms != []
    ensures EHDR_LEN <= |m| && Parse(m).strtab.Some?
    ensures Parse(m).strtab.value.sh_offset + ClassOf(m).ShdrSize() <= |m|
    ensures var x, syms := NmCtx(m), Parse(m).syms;
            && AllResolved(x, syms)
            && (Fits(x, Tail(syms)) && (forall i :: 0 < i < |syms| ==> !Hidden(x, syms[i])) ==>
                  (ListedRight(x, syms[0], Tail(syms)) <==> TableOk(x, Tail(syms))))
  {
    hide EhdrAt, ShdrAt, SymAt, Parse, Resolved, Hidden, Key, Fits, TableOk, ListedRight;
    ParsedSymbols(m);
    ParsedDistinct(m);
    var x, syms := NmCtx(m), Parse(m).syms;
    if Fits(x, Tail(syms)) && forall i :: 0 < i < |syms| ==> !Hidden(x, syms[i]) {
      TableListed(x, syms[0], Tail(syms));
    }
  }

  // ----- the listing in terms of bytes -----

  /** The type of the symbol at offset o: the low half of its st_info byte. */
  function TypeAt(m: seq<byte>, o: nat): int
    requires EHDR_LEN <= |m| && o + 24 <= |m|
  {
    m[o + if m[4] == 1 then 12 else 4] % 16
  }

  /** out lists the symbols of table that are neither of type 3 nor 4, by name and equal names by place in the table. */
  ghost predicate IsListing(m: seq<byte>, out: seq<SymRef>, table: seq<SymRef>)
  {
    && EHDR_LEN <= |m| && (forall i :: 0 <= i < |table| ==> table[i].sym_offset + 24 <= |m|)
    && (forall s :: s in out <==> s in table && TypeAt(m, s.sym_offset) !in {3, 4})
    && forall i, j :: 0 <= i < j < |out| ==>
         && InByteOrder(out[i].name, out[j].name)
         && (out[i].name == out[j].name ==> out[i].sym_offset < out[j].sym_offset)
  }

  /** Behind every listed symbol 24 bytes of the file follow. */
  lemma ParsedInside(m: seq<byte>)
    requires SmallBuffer(m) && Parse(m).code == Success
    ensures EHDR_LEN <= |m| && forall i :: 0 <= i < |Parse(m).syms| ==> Parse(m).syms[i].sym_offset + 24 <= |m|
  {
    hide EhdrAt, ShdrAt, SymAt, CStr, Readable, LastSymtab, FindStrtab, SectionOf, TablesFit, SymLoop, TableListable;
    hide ListMeans, CountIs, Listable, ParseShdrs;
    EhdrOkFacts(m);
    var c := ClassOf(m);
    ParseSucceeds(m);
    ParseParts(m);
    SymbolTableMeaning(c, m, ParseEnv(c, m));
    SymbolLoopSucceeds(c, m, ParseEnv(c, m));
    forall i | 0 <= i < |Parse(m).syms| ensures Parse(m).syms[i].sym_offset + 24 <= |m| {
      EntryInside(c, m, ParseEnv(c, m), Parse(m).syms, i);
    }
  }

  lemma EntryInside(c: Class, m: seq<byte>, env: SymEnv, syms: seq<SymRef>, i: nat)
    requires EnvOk(c, env) && ListMeans(c, m, env, syms, env.tab.offset, 0, 0) && i < |syms|
    requires CountIs(|syms|, 0, env.tab.entsize, env.tab.size) && TableListable(c, m, env)
    ensures syms[i].sym_offset + 24 <= |m|
  {
    hide SymAt, StringAt, SectionOf, EntryOff, CStr;
    assert MeansAt(c, m, env, syms, env.tab.offset, 0, 0, i);
    if i < |syms| - 1 { EntryOffMono(0, env.tab.entsize, i, |syms| - 1); }
    assert Listable(c, m, env, i);
  }

  /**
   * What nm prints of a parsed binary whose names fit pairwise and beat the sentinel, when
   * it completes: exactly the symbols behind the first that are not of type 3 or 4, in the
   * order of the bytes of their names, equal names in the order of the table.
   */
  lemma NmListing(m: seq<byte>)
    requires SmallBuffer(m) && Parse(m).code == Success && Parse(m).syms != []
    ensures EHDR_LEN <= |m| && Parse(m).strtab.Some?
    ensures Parse(m).strtab.value.sh_offset + ClassOf(m).ShdrSize() <= |m| && AllResolved(NmCtx(m), Parse(m).syms)
    ensures var x, syms := NmCtx(m), Parse(m).syms;
            NmOutput(x, syms).Some? && Sortable(x, Tail(syms)) ==> IsListing(m, NmOutput(x, syms).value, syms[1..])
  {
    hide EhdrAt, ShdrAt, SymAt, Parse, Resolved, Hidden, Key, NmOutput, WithKey, Sortable, IsStableSort, IsListing;
    ParsedSymbols(m);
    ParsedInside(m);
    ParsedIncreasing(m);
    NmOfParsed(m);
    var x, syms := NmCtx(m), Parse(m).syms;
    var table := syms[1..];
    assert Tail(syms) == table;
    if NmOutput(x, syms).Some? && Sortable(x, table) {
      assert Increasing(table);
      forall i | 0 <= i < |table| ensures table[i].sym_offset + 24 <= |m| && Key(x, table[i]) == table[i].name {
        assert table[i] == syms[i + 1];
      }
      ListingOf(x, m, NmOutput(x, syms).value, table);
    }
  }

  lemma ListingOf(x: Ctx, m: seq<byte>, out: seq<SymRef>, table: seq<SymRef>)
    requires EHDR_LEN <= |m| && x.m == m && x.c == ClassOf(m) && AllResolved(x, table) && AllResolved(x, out)
    requires Increasing(table) && IsStableSort(x, out, Visible(x, table))
    requires forall i :: 0 <= i < |table| ==> table[i].sym_offset + 24 <= |m| && Key(x, table[i]) == table[i].name
    ensures IsListing(m, out, table)
  {
    hide SymAt, Resolved, Hidden, Key, WithKey;
    var v := Visible(x, table);
    forall s ensures s in out <==> s in table && TypeAt(m, s.sym_offset) !in {3, 4} {
      Listed(x, m, out, table, s);
    }
    VisibleIncreasing(x, table);
    forall i, j | 0 <= i < j < |out|
      ensures InByteOrder(out[i].name, out[j].name)
      ensures out[i].name == out[j].name ==> out[i].sym_offset < out[j].sym_offset
    {
      assert out[i] in table && out[j] in table;
      assert Key(x, out[i]) == out[i].name && Key(x, out[j]) == out[j].name;
      KeyNoNul(x, out[i]);
      KeyNoNul(x, out[j]);
      assert Leq(x, out[i], out[j]);
      StrcmpIsByteOrder(out[i].name, out[j].name);
      if out[i].name == out[j].name {
        WithKeyIncreasing(x, v, out[i].name);
        assert WithKey(x, out, out[i].name) == WithKey(x, v, out[i].name);
        SameNameOrder(x, out, i, j);
      }
    }
  }

  lemma Listed(x: Ctx, m: seq<byte>, out: seq<SymRef>, table: seq<SymRef>, s: SymRef)
    requires EHDR_LEN <= |m| && x.m == m && x.c == ClassOf(m) && AllResolved(x, table) && AllResolved(x, out)
    requires IsStableSort(x, out, Visible(x, table))
    requires forall i :: 0 <= i < |table| ==> table[i].sym_offset + 24 <= |m|
    ensures s in out <==> s in table && TypeAt(m, s.sym_offset) !in {3, 4}
  {
    hide SymAt, Resolved, Hidden, Key, WithKey, Leq, Visible, Sorted;
    SameMembers(out, Visible(x, table), s);
    VisibleMembers(x, table, s);
    if s in table {
      TypeDecides(x, m, table, s);
    }
  }

  lemma SameMembers(q: seq<SymRef>, r: seq<SymRef>, s: SymRef)
    requires multiset(q) == multiset(r)
    ensures s in q <==> s in r
  {
    assert s in q <==> s in multiset(q);
    assert s in r <==> s in multiset(r);
  }

  lemma TypeDecides(x: Ctx, m: seq<byte>, table: seq<SymRef>, s: SymRef)
    requires EHDR_LEN <= |m| && x.m == m && x.c == ClassOf(m) && AllResolved(x, table) && s in table
    requires s.sym_offset + 24 <= |m|
    ensures Resolved(x, s) && (Hidden(x, s) <==> TypeAt(m, s.sym_offset) in {3, 4})
  {
    hide Hidden, Resolved, SymAt;
    HiddenTypes(x, s);
  }
}
