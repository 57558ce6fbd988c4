# A verified model of libelftool

libelftool works on an ELF file held in one byte buffer. The parser builds lists of
wrappers, each holding byte offsets into that buffer; the injector grows the buffer and
turns a PT_NOTE program header into a PT_LOAD; the writer replays the lists as ordered
writes onto a zero-filled file; the query translates a symbol's address to a file offset;
the nm listing sorts the symbol list in place. This project models those components and
proves what they keep, what they undo and where they do not do what their comments say.

Each component comes as a specification over byte sequences, a set of methods that run
on the heap the way the C code does (buffer as an array, lists as linked nodes, fields
updated in place) and are proved against that specification, and lemmas about it.

| files | content |
|---|---|
| `Bytes.dfy`, `Layout.dfy`, `Decoded.dfy` | little-endian fields, C strings, the ELF structures and the wrappers |
| `Lists.dfy`, `Elftool.dfy` | the linked lists and `elftool_t` |
| `ParseSpec.dfy`, `Parser.dfy`, `ParseFacts.dfy`, `ParseFrame.dfy`, `CrossWidth.dfy` | the parser |
| `WriteSpec.dfy`, `Writer.dfy`, `WriteFacts.dfy` | the writer |
| `Loader.dfy` | the memory image a loader sees |
| `InjectSpec.dfy`, `Transform.dfy`, `InjectFacts.dfy`, `InjectRuns.dfy` | the injector |
| `InjectWrite.dfy`, `RunWrite.dfy` | injected binaries, written and parsed back |
| `QuerySpec.dfy`, `Query.dfy`, `QueryFacts.dfy` | the symbol query |
| `NmSpec.dfy`, `Nm.dfy`, `NmFacts.dfy`, `NmTables.dfy` | the nm listing |
| `Pipeline.dfy` | what a successful parse provides to the listing and the query |
| `Specimen.dfy`, `TinyBinary.dfy`, `SampleBinary.dfy`, `InjectExample.dfy`, `NmWitness.dfy`, `QueryWitness.dfy` | concrete binaries |

## Conventions

- The 32-bit and 64-bit twins of each C function differ only in structure layout and
  integer width, so both are modelled once, with the class as a parameter. Unsigned sums
  wrap at the width the C code uses (`AddW`, `TableBytes`).
- `Undefined` is the outcome on inputs for which the C code reads outside the buffer or
  through a null pointer, and on tables with an entry that the end of the buffer cuts
  off; there the model is stricter than the C loops, which read only some fields of an
  entry. `Diverges` is that of the endless symbol loop of a zero `sh_entsize`. Nothing is
  promised about the state after these two. `EFAULT`, `EINVAL`, `ENOSYS` and `MinusOne`
  are the C return values.
- Buffers are shorter than half the address space of their class (`SmallBuffer`).
- A wrapper never changes after it has been pushed, so list contents and the chosen string
  tables are values; the nodes and the head pointers are heap objects.
- Data is little-endian and read as such, whatever `EI_DATA` says, as in the code on a
  little-endian machine.

## Findings

- **A written file loses its ELF header unless a table or a content covers it.** The zero
  fill leaves the file position at the end and nothing seeks back, so the header is
  written behind the file (`HeaderAtTheEnd`). Parse, write, parse is the identity exactly
  when tables and contents cover the six identification bytes, and the header, read with
  zeros for uncovered bytes, still describes the same tables (`ParseWriteParse`); the same
  condition decides after any run of injections (`InjectWriteParse`, `RunWriteParse`).
  Without the identification the output is rejected (`LostHeaderRejected`), as is the copy
  of the 128-byte binary of `HeaderIsLost`.
- **nm follows a null pointer when an odd number of SECTION/FILE symbols ends the table**
  and some other symbol is visible; otherwise it completes (`NmCompletes`,
  `NullPointerFollowed`). An even run is survived because the sweep skips the entry behind
  one it deletes.
- **nm compares names through a `char`, against a sentinel.** Every table over a set of
  visible symbols is listed in stable order exactly when their names differ pairwise by at
  most 127 in the first differing byte and all beat the sentinel, or there is only one
  name (`ListsExactly`). 7-bit names that start below 127 qualify (`OrdinaryIsSortable`);
  a name that starts with a byte from 128 on never beats the sentinel
  (`SentinelMeaning`). A single table whose names differ by at most 127 is listed right
  exactly when its stuck symbols are in place (`TableListed`): stuck is a symbol that does
  not beat the sentinel and has no greater name that does in front of it; in place means
  above all names that beat the sentinel, in order among the stuck, and with no greatest
  of the names that beat the sentinel behind it. `NamesMisordered` and `SymbolLost` are
  parsed binaries that come out wrong.
- The query matches by prefix: it finds what an exact lookup finds exactly when no usable
  longer name comes first (`PrefixMatchIsExact`). It misses an address exactly when the
  address is unmapped, the first one of its segment, or in a segment that ends at the top
  of the address space (`MissedAddresses`). Its test for the uninitialised part adds the
  file offset: an address is reported exactly when it is more than p_offset + p_filesz
  above the start of its segment (`ReportedUninitialised`), and what a READ finds agrees
  with the memory image exactly where it is file-backed or happens to be zero
  (`QueryAgreesWithLoader`). On the binary of `QueryFails` the query answers for a longer
  name, misses a mapped symbol, and places a zero-filled address at a byte that is not
  zero.
- The symbol loop asks for 64 bytes, the size of a section header, where an entry has 16
  or 24, and reports a missing string table only to follow it. It succeeds exactly on
  tables all of whose entries pass its checks (`SymbolLoopSucceeds`), and otherwise the
  first failing entry decides the result (`FirstFailureDecides`): of two files that differ
  only in 40 zero bytes behind the last symbol the shorter one is refused
  (`SymbolNearEndRefused`), and without a string table the missing pointer is followed
  (`MissingStrtabFollowed`).
- The check announced as EI_OSABI tests byte 6, which is EI_VERSION; the model follows the
  code.

## Model

| member | source | states |
|---|---|---|
| Bytes.LoadStored | src/lib/elftool_transform.c:134-141 | a little-endian store followed by a load gives back every value the field can hold |
| Bytes.CStrMeaning | src/lib/elftool_parse.c:333-335 | the duplicated string is the one run of non-NUL bytes at that offset that a NUL inside the buffer ends, and there is none exactly when no NUL follows |
| Bytes.CStrFrame | src/lib/elftool_parse.c:333-335 | the string depends only on its own bytes and its NUL |
| Layout.PhdrRoundTrip | src/lib/elftool_transform.c:134-141 | the eight stores of a program header decode to that header |
| Decoded.EhdrFields | inc/elftool_structs.h:231-237 | the byte positions of the decoded ELF header fields, 32-bit and 64-bit |
| Decoded.PhdrFields32 | inc/elftool_structs.h:107-109 | the byte positions of the eight fields of a 32-bit program header, 32 bytes long |
| Decoded.PhdrFields64 | inc/elftool_structs.h:136-138 | the same for a 64-bit one, 56 bytes long |
| Decoded.ShdrFields32 | inc/elftool_structs.h:165-167 | the byte positions of the decoded fields of a 32-bit section header, 40 bytes long |
| Decoded.ShdrFields64 | inc/elftool_structs.h:194-196 | the same for a 64-bit one, 64 bytes long |
| Decoded.SymFields32 | inc/elftool_structs.h:31-33 | the byte positions of the decoded fields of a 32-bit symbol, 16 bytes long |
| Decoded.SymFields64 | inc/elftool_structs.h:70-72 | the same for a 64-bit one, 24 bytes long |
| Decoded.OffsetWidths | src/lib/elftool_parse.c:312-316 | offsets are sums modulo 2^32 or 2^64 |
| Decoded.TableSum | src/lib/elftool_parse.c:16-31 | the size check adds the int product of two 16-bit fields, sign included, to the table offset |
| Lists.Node.constructor | liblst/ft_lstnew.c:16-39 | a fresh unlinked node with a copy of the content |
| Lists.List.Back | liblst/ft_lstback.c:15-20 | the walk ends at the last node |
| Lists.List.Push | liblst/ft_lstpush.c:15-23 | the list becomes the old nodes followed by the new one, on empty and nonempty lists |
| Lists.List.DelOne | liblst/ft_lstdelone.c:15-25 | exactly the node the slot points at is unlinked, the head or any later one; an empty slot changes nothing |
| Parser.ParseEhdr | src/lib/elftool_parse.c:65-106 | accepts exactly the headers with the right identification whose tables fit; class and endianness are set as far as the checks got and unchanged otherwise |
| Parser.ParsePhdr | src/lib/elftool_parse.c:108-161 | lists the wrappers of the leading entries that lie in the buffer; success exactly when that is all of them |
| Parser.FillShdrs | src/lib/elftool_parse.c:233-270 | lists the leading readable section headers, tells the two ways of running out of the buffer apart, and keeps the sh_link of the last SHT_SYMTAB as an int |
| Parser.ChooseStrtabs | src/lib/elftool_parse.c:274-287 | picks the last SHT_STRTAB of index e_shstrndx and the last one of the linked index |
| Parser.ParseShdr | src/lib/elftool_parse.c:174-290 | result code, list and both string tables are those of ParseShdrs, on failures too |
| Parser.GetSymSections | src/lib/elftool_parse.c:415-444 | the last SHT_SYMTAB of the list |
| Parser.SymRound | src/lib/elftool_parse.c:316-343 | one round either fails with the code of the first failing check or yields the symbol of SymStepAt |
| Parser.ParseSymtab | src/lib/elftool_parse.c:303-407 | code and symbol list are those of the symbol loop, with termination for every nonzero sh_entsize |
| Parser.ParseElf | src/lib/elftool_parse.c:465-481 | the code is that of Parse, and unless it is Undefined or Diverges all five result fields are those of Parse; the buffer is untouched |
| ParseSpec.SymMeasureDecreases | src/lib/elftool_parse.c:312-316 | every round that reads inside the buffer moves on in one direction, even when the position counter wraps |
| ParseFacts.TableInside | src/lib/elftool_parse.c:16-31 | for entries of at most 64 bytes the size check holds exactly when the table ends inside the buffer, in spite of int and unsigned arithmetic |
| ParseFacts.HeaderAccepted | src/lib/elftool_parse.c:65-106 | with full-size entries a header is accepted if and only if its first seven bytes are the right ones and both tables end in the buffer |
| ParseFacts.HeaderRejected | src/lib/elftool_parse.c:465-481 | a rejected header leaves EFAULT and nothing else |
| ParseFacts.SegmentsCutOff | src/lib/elftool_parse.c:117-134 | a program header table with cut-off entries leaves the entries in front of the first of them |
| ParseFacts.SectionsCutOff | src/lib/elftool_parse.c:186-215 | a cut-off section header table is an error when the entry begins behind the buffer and undefined when it only ends there; the entries in front are left |
| ParseFacts.NoUsableSymtab | src/lib/elftool_parse.c:219-223 | no symbol table, or a last one with sh_link of 2^31 or more, is EFAULT |
| ParseFacts.HeaderValidationSufficient | src/lib/elftool_parse.c:143-159 | after an accepted header with full-size entries no table loop leaves the buffer: every entry is listed, in order, with index k, header offset start + k * entsize and decoded content offset |
| ParseFacts.SymtabAndStrtabAgree | src/lib/elftool_parse.c:266-286 | on success the string table is the sh_link target of the very last SHT_SYMTAB, the section whose symbols are listed |
| ParseFacts.StringTables | src/lib/elftool_parse.c:272-287 | on success the two string tables are the sections at e_shstrndx and at the symbol table's sh_link, each if and only if it exists and has type 3 |
| ParseFacts.SymbolTableMeaning | src/lib/elftool_parse.c:303-354 | a table that parses yields ceil(size / entsize) symbols, number k at offset + k * entsize with index k mod 65536, its value and its string; even for entry sizes that make the counter wrap |
| ParseFacts.SymbolLoopSucceeds | src/lib/elftool_parse.c:312-346 | the loop succeeds if and only if the table is empty, or entsize is nonzero and every entry in front of sh_size has 64 bytes behind its offset, a string table, and a name inside the buffer; for every entry size |
| ParseFacts.FirstFailureDecides | src/lib/elftool_parse.c:317-337 | the first entry that fails a check decides the result code, and exactly the entries before it are listed, each with its index, place, value, name and section |
| ParseFacts.ParseSucceeds | src/lib/elftool_parse.c:465-481 | the whole parse succeeds if and only if the header is accepted, the tables are readable, a symbol table with a link exists and its entries are listable |
| ParseFacts.SectionByIndex | src/lib/elftool_parse.c:339-343 | the section lookup is by position and never finds the last section |
| ParseFacts.SymbolSection | src/lib/elftool_parse.c:339-347 | a symbol carries the header offset of the section of the latest symbol whose st_shndx is below e_shnum - 1, and 0 before the first such |
| ParseFrame.ParseDependsOn | src/lib/elftool_parse.c:465-481 | a buffer at least as long that keeps the 52 or 64 header bytes, the section headers and the listed symbols' entries and names parses to the same result but for its own program headers |
| ParseFrame.SameParseReadsAlike | src/lib/elftool_parse.c:465-481 | conversely, only a header that describes the same tables gives the same result |
| CrossWidth.SameSections | src/lib/elftool_parse.c:174-290 | 32-bit and 64-bit tables that say the same give the same code, corresponding wrappers and the same string table choices |
| CrossWidth.SameLoops | src/lib/elftool_parse.c:303-407 | 32-bit and 64-bit symbol tables that say the same, failing entries and endless loops included, give the same code, equally many symbols, and symbols with equal index, value and name pointing at the same section |
| CrossWidth.SameParse | src/lib/elftool_parse.c:465-481 | two whole images of either class with accepted headers that say the same parse to the same code, corresponding lists and string tables |
| SampleBinary.SampleParses | src/lib/elftool_parse.c:465-481 | the whole result of parsing a concrete image with a segment, a string table and three symbols, in both classes |
| SampleBinary.SamplesCorrespond | src/lib/elftool_parse.c:465-481 | the 32-bit and the 64-bit image say the same, and their results correspond |
| Writer.OutFile.Write | src/lib/elftool_write.c:8-36 | write overlays the bytes at the file position and advances it |
| Writer.CopyPhdrTable | src/lib/elftool_write.c:9-15 | the file becomes the replay of one e_phentsize write per list element from e_phoff on |
| Writer.CopyShdrTable | src/lib/elftool_write.c:16-22 | the same for the section header table |
| Writer.CopySections | src/lib/elftool_write.c:23-30 | the replay of every section's content, whatever its type |
| Writer.CopySegments | src/lib/elftool_write.c:31-37 | the replay of every wrapper's content at the offset its header names |
| Writer.WriteElf | src/lib/elftool_write.c:75-103 | the whole output: zeros, the header behind them, and the four passes |
| WriteFacts.LastWriterWins | src/lib/elftool_write.c:10-37 | among overlapping writes the last one that covers an offset decides its byte |
| WriteFacts.SegmentPass | src/lib/elftool_write.c:31-37 | on a coherent list, aliases included, every covered byte is the buffer's own: a stale wrapper's write is undone by the later fresh one |
| WriteFacts.PhdrTablePass | src/lib/elftool_write.c:9-15 | the table keeps its bytes, every slot behind it shows the header of the appended wrapper of that position, and nothing else changes |
| WriteFacts.FileAt | src/lib/elftool_write.c:6-103 | every byte of the output: the buffer's own inside a table or a content, the appended wrapper's header in a slot behind the table, the ELF header behind the old end, zero elsewhere |
| WriteFacts.KeptRanges | src/lib/elftool_write.c:9-37 | which bytes of the file are the buffer's own: those of the two tables, of [sh_offset, + sh_size) of a section, and of [p_offset, + p_filesz) of a segment |
| WriteFacts.LastSegmentShown | src/lib/elftool_write.c:31-37 | for any lists, stale wrappers included, the last wrapper whose segment covers a byte puts there the buffer's byte behind its own mem_offset |
| WriteFacts.LastSectionShown | src/lib/elftool_write.c:23-30 | the same for sections, where no segment covers the byte |
| WriteFacts.OutputLength | src/lib/elftool_write.c:6-103 | the output has the buffer's length plus 64, or ends with the last slot behind the table if that is farther |
| WriteFacts.HeaderAtTheEnd | src/lib/elftool_write.c:91-98 | without appended wrappers the output is the buffer's length plus 64, and those last 64 bytes are the ELF header |
| WriteFacts.WriteThenParse | src/lib/elftool_write.c:6-103 | if the symbols' bytes survive, parsing the output of any coherent binary gives exactly its tables if and only if the header survives |
| WriteFacts.LostHeaderRejected | src/lib/elftool_write.c:91-98 | the output of any coherent binary whose identification bytes nothing covers is rejected |
| WriteFacts.WholeHeaderSurvives | src/lib/elftool_write.c:91-98 | covering the nonzero bytes of the class's own header, 52 or 64 bytes, is enough |
| WriteFacts.SymbolsInSectionsSurvive | src/lib/elftool_write.c:23-30 | symbols whose entries and names lie in section contents survive every write |
| WriteFacts.ParsedIsCoherent | src/lib/elftool_parse.c:136-161 | every parsed binary is coherent |
| WriteFacts.ParseWriteParse | src/lib/elftool_write.c:6-103 | when the symbols' bytes survive, parse, write, parse gives the same result if and only if the identification is covered and the header with zeros for uncovered bytes describes the same tables; without identification the output is rejected |
| TinyBinary.HeaderIsLost | src/lib/elftool_write.c:91-98 | a concrete binary that parses and whose written copy does not |
| SampleBinary.SymbolNearEndRefused | src/lib/elftool_parse.c:316-319 | of two concrete files with the same three symbols that differ only in 40 zero bytes at the end, the longer parses and the shorter is refused |
| TinyBinary.MissingStrtabFollowed | src/lib/elftool_parse.c:326-335 | a concrete binary without a string table on which the loop goes on to use it |
| Transform.AppendCode | src/lib/elftool_transform.c:42-62 | the buffer is the old one, arbitrary padding up to the next page, then the code |
| Transform.GetAvailablePhdr | src/lib/elftool_transform.c:67-78 | the first wrapper whose header is a PT_NOTE, EINVAL when there is none |
| Transform.GetVaddr | src/lib/elftool_transform.c:16-37 | the page behind the PT_LOAD of greatest p_vaddr, -1 when there is none |
| Transform.StorePhdr | src/lib/elftool_transform.c:134-141 | the eight stores replace exactly the 56 bytes of the slot |
| Transform.InjectSegment | src/lib/elftool_transform.c:107-148 | result code, buffer and list in every case: ENOSYS on 32-bit, the two failures, and success |
| InjectSpec.AppendFrame | src/lib/elftool_transform.c:53-60 | growing the buffer changes neither the chosen PT_NOTE nor the highest PT_LOAD |
| InjectSpec.HighestLoadIndex | src/lib/elftool_transform.c:21-27 | of several PT_LOAD headers with the greatest p_vaddr the first in the list is chosen |
| InjectSpec.NextVaddrIs | src/lib/elftool_transform.c:31-34 | the chosen address as a number, for sums that wrap too |
| InjectFacts.NextVaddrAboveAll | src/lib/elftool_transform.c:21-34 | the chosen address is the least page boundary at or above the end of the highest segment, and at or above the end of every segment |
| InjectFacts.SlotsAfter | src/lib/elftool_transform.c:128-141 | the rewritten header decodes to the new segment and no other header changes |
| InjectFacts.VictimIsFirst | src/lib/elftool_transform.c:71-76 | the rewritten header is the first PT_NOTE of the table |
| InjectFacts.SuccessStores | src/lib/elftool_transform.c:128-143 | the eight values stored in the header, PF_R and PF_W among them, the wrapper pushed, and the code at its offset |
| InjectFacts.FailureCodes | src/lib/elftool_transform.c:118-126 | EINVAL exactly without a PT_NOTE, -1 exactly with one but without a PT_LOAD, success otherwise |
| InjectFacts.InjectionExtendsImage | src/lib/elftool_transform.c:107-148 | a success keeps the binary well-formed, uses up one PT_NOTE, aligns address and offset, maps exactly the code's addresses to the code, and leaves every other address alone but those that show the rewritten header |
| InjectFacts.FailureIsHarmless | src/lib/elftool_transform.c:118-126 | a failing injection keeps all old bytes, headers, the list and the whole memory image |
| InjectFacts.FailsWhen | src/lib/elftool_transform.c:71-77 | the choices fail exactly when no PT_NOTE or no PT_LOAD header is in the table |
| InjectRuns.RunSafety | src/lib/elftool_transform.c:107-148 | along any run of successful injections the segments stay disjoint and in bounds, the ELF header stays, and step i has used up i PT_NOTE headers |
| InjectRuns.RunVictims | src/lib/elftool_transform.c:71-76 | step i of a run rewrites the i-th PT_NOTE header of the original table |
| InjectRuns.RunKeeps | src/lib/elftool_transform.c:107-148 | a mapping whose file byte is outside the header table keeps its header, file byte and image through the rest of the run |
| InjectRuns.InjectedCodeStays | src/lib/elftool_transform.c:128-143 | each injected segment is page-aligned above all earlier ones and shows its code after every later step |
| InjectRuns.RunStaysUnmapped | src/lib/elftool_transform.c:107-148 | over a run only the addresses of the injected codes become mapped |
| InjectRuns.NextFailsWhenExhausted | src/lib/elftool_transform.c:118-126 | after any run the next injection succeeds if and only if a PT_NOTE is left, and fails with EINVAL otherwise |
| InjectWrite.InjectedParses | src/lib/elftool_transform.c:128-143 | the injected buffer parses as before but for the one rewritten program header |
| InjectWrite.CoherentAfter | src/lib/elftool_transform.c:142-143 | the pushed wrapper is the fresh alias of the stale one, so injections keep coherence |
| InjectWrite.WriterSafeAfter | src/lib/elftool_write.c:31-37 | after an injection the writer, the stale wrapper's write included, still reads inside the buffer |
| InjectWrite.KeptAfter | src/lib/elftool_write.c:23-37 | after an injection a header byte reaches the file exactly when the section header table, a section, or a segment other than the rewritten one covers it |
| InjectWrite.StaysWritable | src/lib/elftool_transform.c:128-143 | a binary that can be written and parsed back stays so, with one program header rewritten in its parse |
| InjectWrite.InjectWriteParse | src/lib/elftool_write.c:6-39 | inject into any coherent binary, write, parse: the code stands at its offset, and, when the symbols' bytes survive, the same sections, symbols and program headers but one come back if and only if the header survives; without identification the output is rejected |
| InjectWrite.ParseInjectWriteParse | src/lib/elftool_write.c:6-39 | the same from a parsed file |
| RunWrite.WriteKeepsImage | src/lib/elftool_write.c:6-39 | a written file in which e_phoff, e_phentsize and e_phnum survive has the memory image of the buffer |
| RunWrite.RunParses | src/lib/elftool_transform.c:107-148 | along any run of injections the buffer keeps parsing, to the same sections and symbols and the same program headers but for the rewritten ones |
| RunWrite.RunWriteParse | src/lib/elftool_write.c:6-39 | write after any run of injections and parse: when the symbols' bytes survive, the final buffer's own parse if and only if the header survives; rejected without identification |
| RunWrite.RunSymbolsSurvive | src/lib/elftool_write.c:23-30 | symbols in section contents stay there along a run and survive the write |
| RunWrite.RunCodeInFile | src/lib/elftool_write.c:31-37 | every code of a run stands in the written file at its offset, which the rewritten header's wrapper names |
| RunWrite.RunWriteImage | src/lib/elftool_write.c:6-39 | the loader sees every code of a run in the written file at its address, every original address backed outside the header table unchanged, and nothing at any address outside the original segments and the codes |
| InjectExample.InjectedAndParsedBack | src/lib/elftool_transform.c:107-148 | a concrete binary on which the conditions of these theorems hold, injected, written and parsed back |
| Query.FindSymbol | src/lib/elftool_query.c:15-19 | the first symbol with the queried prefix and nonzero value and size |
| Query.FindPlace | src/lib/elftool_query.c:22-41 | the file offset computed from the first segment strictly containing the address, or which of the two errors |
| Query.SymQueryByName | src/lib/elftool_query.c:8-63 | READ and WRITE in every case; failing calls change neither the buffer nor the query, a WRITE replaces exactly the symbol's file range |
| QueryFacts.LocateIs | src/lib/elftool_query.c:22-37 | where the query places any address of a segment: nowhere, reported as uninitialised, or the loader's file byte |
| QueryFacts.FirstSymbolIndex | src/lib/elftool_query.c:15-18 | the symbol found is the first that starts with the query and has nonzero value and size |
| QueryFacts.FindSegmentIndex | src/lib/elftool_query.c:22-26 | the segment found is the first PT_LOAD that has the address strictly inside, overlapping segments or not |
| QueryFacts.LocateFirst | src/lib/elftool_query.c:27-37 | the place computed from that segment |
| QueryFacts.MissedAddresses | src/lib/elftool_query.c:23-26 | an address is not found if and only if it is unmapped, the start of its segment, or in a segment that ends at the top of the address space |
| QueryFacts.ReportedUninitialised | src/lib/elftool_query.c:27-33 | an address is reported as uninitialised if and only if it is more than p_offset + p_filesz above its segment's start; the loader shows zero there |
| QueryFacts.QueryAgreesWithLoader | src/lib/elftool_query.c:27-37 | the byte a query computes equals the memory image if and only if it is file-backed or zero |
| QueryFacts.ReadRefinesLoader | src/lib/elftool_query.c:15-53 | a matching symbol strictly above the start of a segment and wholly in its file-backed part is found, at the loader's file byte, and its bytes are those the loader shows |
| QueryWitness.QueryFails | src/lib/elftool_query.c:15-37 | a concrete parsed binary on which the query answers for a longer name, misses a mapped symbol, and places a zero-filled address at a nonzero byte |
| QueryFacts.InjectedAddressResolves | src/lib/elftool_query.c:22-40 | every address strictly inside an injected segment translates into the code, by the stale and by the pushed wrapper alike |
| QueryFacts.WriteThenRead | src/lib/elftool_query.c:46-62 | after a WRITE clear of the tables a READ resolves to the same place, finds the data, and all other bytes are unchanged |
| QueryFacts.WriteChangesImage | src/lib/elftool_query.c:54-60 | a WRITE changes the memory image exactly at the addresses backed by its file range; unmapped addresses stay unmapped |
| QueryFacts.PrefixMatchIsExact | src/lib/elftool_query.c:15-18 | prefix lookup equals exact lookup if and only if no usable longer name comes first |
| Nm.DropFront | src/lib/elftool_dump.c:95-102 | the first symbol and all leading SECTION/FILE symbols are unlinked |
| Nm.SweepRest | src/lib/elftool_dump.c:103-114 | the sweep with its skipped entries, and when it follows a null pointer |
| Nm.OneRound | src/lib/elftool_dump.c:116-161 | one node, the selected one, moves to the new list; a stale selection behind the list drops the head instead |
| Nm.SortSymbols | src/lib/elftool_dump.c:85-249 | the list left in place of bin->syms, for all names, the stale-index paths included |
| Nm.IterNm | liblst/ft_lstiter.c:15-25 | the traversal prints the visible symbols of the list in order |
| Nm.DumpNm | src/lib/elftool_dump.c:375-395 | completes or not, and prints NmOutput; an empty list prints nothing, with or without a string table |
| NmFacts.CharCompare | src/lib/elftool_dump.c:80-83 | the squeezed comparison is right if and only if the byte difference fits a char |
| NmFacts.StrcmpFirstDifference | src/lib/elftool_dump.c:80-83 | at the first difference the comparison is the difference of the two bytes |
| NmFacts.StrcmpPrefix | src/lib/elftool_dump.c:80-83 | against a longer name the end counts as a NUL byte |
| NmFacts.StrcmpIsByteOrder | src/lib/elftool_dump.c:80-83 | the comparison orders names by their bytes |
| NmFacts.HiddenTypes | src/lib/elftool_dump.c:95-109 | hidden are the symbols whose type, in byte 12 or 4 of the entry, is 3 or 4 |
| NmFacts.SentinelMeaning | src/lib/elftool_dump.c:80-83 | the names that beat the sentinel: empty, first byte below 127, or 127 followed by a byte above 128 |
| NmFacts.StrcmpTrans | src/lib/elftool_dump.c:80-83 | the name order is transitive |
| NmFacts.ScanSelects | src/lib/elftool_dump.c:117-132 | with names that fit pairwise the round selects the first minimum from the first name on that beats the sentinel |
| NmFacts.ScanFindsFirstMin | src/lib/elftool_dump.c:117-132 | when all beat the sentinel too, every round selects the first minimum of the list |
| NmFacts.RoundsSortStably | src/lib/elftool_dump.c:115-162 | the rounds produce a stable sort: nothing lost, nothing duplicated, equal names in their old order |
| NmFacts.StaleRounds | src/lib/elftool_dump.c:133-161 | when no name beats the sentinel, the list from the old selection on is kept in its order and what stands in front is dropped |
| NmFacts.SortsExactly | src/lib/elftool_dump.c:115-162 | all lists over a set of symbols are sorted stably if and only if their names fit pairwise and beat the sentinel, or are all the same |
| NmFacts.StableSortUnique | src/lib/elftool_dump.c:115-162 | a list has only one stable sort |
| NmFacts.SweepCrashes | src/lib/elftool_dump.c:103-114 | the sweep follows a null pointer if and only if an odd number of hidden symbols ends the list behind its head |
| NmFacts.SweepRun | src/lib/elftool_dump.c:103-114 | of a run of hidden symbols the sweep deletes every other one, beginning with the first |
| NmFacts.SweepKeepsVisible | src/lib/elftool_dump.c:103-114 | the incomplete filter loses no visible symbol and keeps their order |
| NmFacts.FilterCommutes | src/lib/elftool_dump.c:343-350 | filtering a stable sort gives the stable sort of the filtered list |
| NmFacts.NmCompletes | src/lib/elftool_dump.c:95-114 | nm completes if and only if nothing is visible or an even number of hidden symbols ends the table |
| NmFacts.NmListsStableSort | src/lib/elftool_dump.c:85-166 | the printed list is the stable sort by name of all symbols but the first that are neither SECTION nor FILE, for all names that fit pairwise and beat the sentinel |
| NmFacts.ListsExactly | src/lib/elftool_dump.c:85-166 | nm lists every table of visible symbols over a set right if and only if their names fit pairwise and beat the sentinel, or are all the same |
| NmTables.RoundsSort | src/lib/elftool_dump.c:115-162 | the rounds sort one list of distinct symbols whose names fit pairwise if and only if its stuck symbols are in place and no stale selection is left for it |
| NmTables.TableListed | src/lib/elftool_dump.c:85-166 | nm lists one table of visible symbols whose names fit pairwise in stable order if and only if its stuck symbols are in place |
| NmWitness.NullPointerFollowed | src/lib/elftool_dump.c:103-114 | a concrete parsed binary on which the sweep follows a null pointer |
| NmWitness.SymbolLost | src/lib/elftool_dump.c:135-161 | a concrete parsed binary of which one visible symbol is not listed |
| NmWitness.NamesMisordered | src/lib/elftool_dump.c:80-83 | a concrete parsed binary whose two symbols are listed in the wrong order |
| Pipeline.ParsedSymbols | src/lib/elftool_parse.c:446-463 | after a successful parse every listed symbol is readable and its name is the one the listing reads |
| Pipeline.NmOfParsed | src/lib/elftool_dump.c:375-395 | the nm result for any parsed binary, both classes: when it completes, and its order for names that fit pairwise and beat the sentinel |
| Pipeline.NmListing | src/lib/elftool_dump.c:375-395 | what nm prints of a parsed binary, for such names: exactly the symbols behind the first that are not of type 3 or 4, by the bytes of their names, equal names in table order |
| Pipeline.ParsedIncreasing | src/lib/elftool_parse.c:303-354 | a successful parse lists the symbols by increasing offset |
| Pipeline.ParsedDistinct | src/lib/elftool_parse.c:303-354 | a successful parse lists no symbol twice |
| Pipeline.NmOfVisibleTable | src/lib/elftool_dump.c:375-395 | the exact condition of TableListed for the table of any parsed binary |

## Left out

- Loading the file, opening and closing the output, short writes and allocation failure: system calls.
- `elftool_getopt` and the client driver: option tables and plumbing.
- The ehdr, phdr, shdr and symbol dumps, the column formatting of nm and `nm_flag_magic`: output text settled by reading.
- `elftool_add_phdr`: its call is commented out. `ft_lstrev`, `ft_lstswap`, `ft_lstmap`, `ft_lstget`, `ft_lstadd`, `ft_lstsize`, `ft_lstnew_nodup`: not used by the modelled code.
- Null arguments of the public functions, which return an error code at once, and freeing: memory is not reclaimed in the model.
- Byte order: MSB files are read as if they were LSB, as the parser does on an LSB machine; no swapping is modelled.
- Aliasing of the string table: the code keeps a pointer to the list element's content, the model a copy of it; nothing writes through either.
- Lists.Node.constructor: contents are values, so neither a null content nor content_size is modelled; the library never creates such a node.
- Lists.List.Push: appends one node without a successor, as the library always does; the C function would also link a chain.
- Parser.ParsePhdr: an entry that the end of the buffer cuts off gives Undefined, although the C loop reads only its p_offset.
- Parser.FillShdrs: a cut-off entry gives Undefined, although the C loop reads only sh_offset, sh_type and sh_link.
- Parser.ParseShdr: inherits the outcome of FillShdrs for cut-off entries.
- ParseFacts.FirstFailureDecides: from the second entry on for entry sizes that are nonzero and below half the address space.
- CrossWidth.SameLoops: as for SameParse, which rests on it.
- CrossWidth.SameParse: for symbol entry sizes below half the address space of their class, zero in both images or in neither; with larger ones no table of more than one entry parses.
- Transform.InjectSegment: the sum of buffer length, padding and code length does not wrap, and the listed program headers lie in the buffer.
- InjectFacts.InjectionExtendsImage: for nonempty code, disjoint nonempty segments and room below the top of the address space; without room the chosen address wraps.
- Writer.WriteElf: every listed range lies in the buffer, NOBITS sections included, because the writer does not look at the type; a write from outside the buffer is not modelled.
- WriteFacts.ParseWriteParse: the bytes of the symbols' entries and names survive, as they do inside section contents; table entries have full size, and the output is shorter than half the address space.
- RunWrite.RunWriteImage: when e_phoff, e_phentsize and e_phnum survive, which is what a loader reads to find the program headers.
- Query.SymQueryByName: on 64-bit binaries; the code uses the 64-bit accessors whatever the class.
- QueryFacts.LocateIs: for buffers shorter than 2^63 bytes and well-formed disjoint segments, as for the loader itself.
- Nm.DumpNm: which symbols are printed and in which order, not the text of a line; strcmp is taken to return the difference of the first differing bytes.
- NmFacts.ListsExactly: for tables of visible symbols; hidden symbols with unusual names can pass unnoticed.
- NmTables.TableListed: for visible symbols whose names fit pairwise; with names that do not fit the rounds depend on the order of wrong comparisons, and only ListsExactly speaks of them.
