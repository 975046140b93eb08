# Verification of tebako's archive scoper, installers and small languages

This project models, and proves properties of, seven parts of tebako:

- the Mach-O archive scoper (`tebako-arscope`): it prefixes every visible
  definition outside the public surface, in all members of an `ar` archive and
  at byte level, together with the references to it, and packs the result
  behind a symbol index;
- the dependency-closure install of `tebako-cli`, a recursive walk over
  requirement edges that keeps no visited set;
- the runtime-cache install protocol of `tebako-bootstrap`, in which many
  processes share one entry under a lock and may crash at any step;
- the closed-form calendar behind the RFC 3339 timestamps;
- the response-file rewriter of the windows-gnu link wrapper;
- version comparison, the pessimistic requirement and the path cleaner;
- the runtime reference that `press` prints and the bootstrap parses.

Each algorithm that the program writes as a loop or as an update in place is a
method here, proved equal to a specification function; the properties are
lemmas about that function. `CacheProtocol` is a transition system, and the
methods of `Installers.Process` take only its steps. Byte strings are sequences
of integers 0 to 255; bit masks are written as division and remainder.

| module | what it holds |
|---|---|
| `Bytes`, `Utf8`, `Utf8Exact`, `Decimal`, `Text`, `Wrappers` | fields and slices, UTF-8 and its lossy conversion, UTF-8 against the encoding of scalar values, numerals, splitting and joining, results |
| `MachO`, `LoadCommands` | the symbol-table reader, and the file format it is exact for |
| `Scope`, `ScopeRule`, `ScopeProofs`, `Linking`, `LinkExamples` | the rewrite of one object, which names it takes, parse-back and frame, link resolution over the archive, concrete files |
| `Archive`, `ArchiveProofs`, `IndexReader`, `ArchiveReader`, `ArchiveRoundTrip`, `ForeignArchive`, `Pipeline` | the archive writer, its layout, a reader of the index alone, the independent archive reader, the round trip, archives of other writers, the two passes end to end |
| `Install`, `Constraints`, `ConstraintMeaning`, `Dispatcher` | the dependency closure, the constraints of its edges and what they ask, and the version comparison it chooses by |
| `CacheProtocol`, `CacheRuns`, `Installers` | the protocol, what its runs can and cannot reach, and the four installers |
| `Versions`, `VersionMeaning` | the scenario's comparison and `~>`, and what both comparisons mean |
| `ResponseFile`, `ResponseGrammar` | the rewriter, and the grammar it reads |
| `Calendar`, `CleanPath`, `RuntimeRef` | one each |

## What the proofs found

These are statements in which the code differs from its comments, or in which
a property holds on a part of the inputs only. Where the proof gives an exact
condition, the lemma is an if-and-only-if.

- Link resolution is not preserved on every archive. Two names that are not
  UTF-8 can take one scoped name (`LinkExamples.LossyCollapse`), and a kept name
  that already is the prefix and a renamed name swallows that name
  (`LinkExamples.PrefixCollapse`); both lemmas give the bytes of a file.
  `Linking.Separable` is the exact condition, `Linking.SeparableMeans` says what
  to look for, and `Linking.CleanNamesAreSeparable` shows that UTF-8 names
  without the prefix meet it.
- The reader lets a kept name run past the end of its string table; scoping
  moves the table and such a name is lost (`LinkExamples.OverrunIsLost`).
  `ScopeProofs.ParseBackExactly` gives the exact condition on the names that stay:
  each ends inside the table, or its rest is the first new name.
- A member header has 60 bytes only if its size has at most ten digits and, for a
  short GNU name, the name has no multi-byte character: the padding counts
  characters, not bytes (`ArchiveProofs.HeaderLength`). Behind a longer header every
  announced offset is too small, and the reader stops at it.
- The comment on the member writer says that the index name is padded to 20; the
  code pads `__.SYMDEF` to 12, and the model follows the code.
- The dispatcher's version comparison, which the install chooses by, is no order
  on all versions: 2 < 10 < 1a < 2 (`Dispatcher.MixedOrderCycles`). Of these three
  offers, all admitted by `>= 0`, the install takes 1a, although 2 is above it
  (`Install.NewestMissesGreatest`). `Dispatcher.OrderedExactly` says on which
  sets it is an order, and `Install.NewestExactly` for which offers the version
  taken is a greatest one.
- Installing again does not repair a store that an aborted walk left behind: a
  cache hit does not look below the target's own edges
  (`Install.AbortedWalkIsNotRepaired`). `Install.RepairExactly`,
  `Install.ClosedIsKept` and `Install.OpenEdgesAreMet` say which stores are closed
  after an install.
- The comment on the walk bounds it by re-encountered names. The check is per
  constraint, so two versions of one name can be installed in one walk
  (`Install.TwoVersionsInOneWalk`); the measure is the number of catalog (name, version) pairs not installed.
- The release index chooses the file name of the DLL, and only slashes are
  refused. A DLL declared under the executable's name is renamed over the
  executable (`CacheRuns.ExeIsOverwritten`); under the image's name, or that of
  the image's marker, it passes for a verified image (`CacheRuns.ImageIsMistaken`).
  `CacheRuns.NamesDecideSafety` gives the exact condition on the declared names, and
  `CacheRuns.DllSafety` the one under which the DLL itself is safe.
- An image can be replaced until its marker is written, and not afterwards
  (`CacheRuns.ReplaceableUntilMarked`); a crash between the two leaves such an image.
- The timestamp is that of RFC 3339 (four-digit year, section 5.6) exactly for
  the seconds before the year 10000 (`Calendar.RenderLength`).
- `~> v` is the prefix rule exactly when the fixed segments of v are numbers and
  the last of them is below 2^64 - 1 (`Versions.PessimisticIsPrefix`).
- The path cleaner takes a backslash for a separator on POSIX hosts too, so there
  it does not keep the location of every path: the file `a\b` becomes `a/b`
  (`CleanPath.BackslashIsSplit`). `CleanPath.PosixExactly` gives the exact
  condition; every path without a backslash meets it.

## Model

| member | source | states |
|---|---|---|
| `Linking.LinkPreservation` | crates/tebako-arscope/src/macho.rs:129-226 | Over a whole archive, every linked symbol and every visible definition, of any members, have equal names after scoping exactly when they had before; this holds if and only if the archive's names are separable. |
| `Linking.ScopedArchiveLinks` | crates/tebako-arscope/src/main.rs:118-171 | The same at byte level: every scoped member reads back entry by entry, and the names read back bind as the input names did if and only if the input names are separable. |
| `Linking.CleanNamesAreSeparable` | crates/tebako-arscope/src/macho.rs:124-149 | UTF-8 names none of which starts with the internal prefix are separable. |
| `LinkExamples.LossyCollapse` | crates/tebako-arscope/src/macho.rs:144-146 | The bytes of a Mach-O file, read as two visible definitions with different names that are not UTF-8: under the default prefixes both take one scoped name, and links are not preserved. |
| `LinkExamples.PrefixCollapse` | crates/tebako-arscope/src/macho.rs:129-149 | The bytes of a Mach-O file with a kept definition named prefix plus a renamed name: the two collide under the default prefixes. |
| `LinkExamples.OverrunIsLost` | crates/tebako-arscope/src/macho.rs:105-114 | The bytes of a Mach-O file whose kept name runs past the string table, which the reader accepts: with the rename set that pass A collects for it, the scoped file does not read back with that name. |
| `LinkExamples.FileParses` | crates/tebako-arscope/src/macho.rs:33-123 | Header, command, nlist and string bytes built for two given names are read as exactly the object with those names. |
| `Linking.SeparableMeans` | crates/tebako-arscope/src/macho.rs:129-161 | For a non-empty prefix, separable means: no two renamed names with one lossy image, no staying name that is the prefix and the lossy image of a renamed one, and no reference to a kept definition whose name is the lossy image of a renamed one. |
| `Linking.ArchiveDefinedAre` | crates/tebako-arscope/src/main.rs:118-143 | A name is in the archive-wide rename set exactly when some member has a visible, non-kept definition with that lossy name. |
| `Linking.ScopedNameIsKept` | crates/tebako-arscope/src/macho.rs:129-146 | If the internal prefix is itself under the keep rule, no scoped name is renamed again, whatever bytes the name had. |
| `Linking.NothingLeft` | crates/tebako-arscope/src/main.rs:118-143 | Pass A over an archive whose members are scoped collects nothing. |
| `Linking.RescopeIsIdentity` | crates/tebako-arscope/src/macho.rs:171-226 | Scoping each scoped member again succeeds, renames nothing and returns the same bytes. |
| `Linking.DefaultsAreKept` | crates/tebako-arscope/src/main.rs:42-44 | The default internal prefix is under the default keep prefix, so the statements about a second scoping apply to the tool as shipped. |
| `ScopeProofs.ParseBack` | crates/tebako-arscope/src/macho.rs:171-226 | Reading a scoped object back succeeds and finds the same entries in order, with the same type and value class, each under exactly its new name, although the string table moved to the end of the file. |
| `ScopeProofs.ParseBackExactly` | crates/tebako-arscope/src/macho.rs:105-114 | Where the layout is as expected, the scoped object reads back as it should if and only if nothing is renamed, or every name that stays ends inside its string table or runs past its end with exactly the new name of the first renamed symbol. |
| `ScopeProofs.NamesStandExactly` | crates/tebako-arscope/src/macho.rs:204-217 | The names that stay stand at their offsets in the grown string table exactly under that condition on the input. |
| `ScopeProofs.InsideFits` | crates/tebako-arscope/src/macho.rs:211-226 | Names that end inside the string table meet that condition. |
| `ScopeProofs.Frame` | crates/tebako-arscope/src/macho.rs:179-225 | No input byte changes but the strx fields of renamed symbols and the stroff and strsize fields; with nothing renamed the output is the input. |
| `ScopeProofs.FieldsBack` | crates/tebako-arscope/src/macho.rs:179-218 | The type byte and the eight value bytes of every entry are the same in the output. |
| `ScopeProofs.TabBack` | crates/tebako-arscope/src/macho.rs:33-61 | The load-command walk finds the same LC_SYMTAB in the output, announcing the relocated string table. |
| `ScopeProofs.StrxField` | crates/tebako-arscope/src/macho.rs:204-217 | After any number of loop steps the strx field of an entry is the offset of its new name if it is renamed, and unchanged otherwise: later entries do not overwrite earlier ones. |
| `ScopeProofs.NameInTable` | crates/tebako-arscope/src/macho.rs:211-216 | The new name stands NUL-terminated in the final string table at the offset its strx field was given. |
| `ScopeProofs.RenamedCount` | crates/tebako-arscope/src/macho.rs:210-219 | The renamed count is zero exactly when no symbol is renamed, and then the patched copy is the input. |
| `Scope.DefinedNamesAre` | crates/tebako-arscope/src/macho.rs:151-161 | An object's rename set is exactly the lossy names of its visible, non-kept definitions. |
| `Scope.CollectDefined` | crates/tebako-arscope/src/macho.rs:151-161 | The pass A loop computes that set, or fails with the reader's failure. |
| `Scope.PatchSymbols` | crates/tebako-arscope/src/macho.rs:179-218 | The in-place symbol loop reaches the state of the entry-by-entry rewrite: file, string table, exported names and both counts. |
| `Scope.RewriteObject` | crates/tebako-arscope/src/macho.rs:171-226 | The whole rewrite of an object equals its specification on every input, failures included. |
| `LoadCommands.FindsByChain` | crates/tebako-arscope/src/macho.rs:38-51 | The search for LC_SYMTAB among the announced commands, told by chains of commands that each start where the one before ends: it succeeds exactly at the end of a chain without that command where one stands, finds none exactly when a chain of all announced commands holds none, and fails exactly where a chain breaks off. |
| `LoadCommands.TableExactly` | crates/tebako-arscope/src/macho.rs:33-61 | The symbol table returned, or the failure, is the one that header, chain and the four words behind the command give, for every file. |
| `LoadCommands.ParsesExactly` | crates/tebako-arscope/src/macho.rs:94-123 | A file is read as an object exactly when its format gives that object: the table, and for each entry string offset, type byte, value and NUL-terminated name. |
| `LoadCommands.TypeBits` | crates/tebako-arscope/src/macho.rs:79-92 | Undefined and visible, told by the single bits of the type byte. |
| `LinkExamples.SegmentFileParses` | crates/tebako-arscope/src/macho.rs:38-51 | The bytes of a file whose LC_SYMTAB stands behind a segment command of 72 bytes: it is found at byte 104 and the symbols are read. |
| `Bytes.ByteOrder` | crates/tebako-arscope/src/macho.rs:22-31 | Little-endian fields put the low byte first, big-endian fields the high one. |
| `MachO.LocateSymtab` | crates/tebako-arscope/src/macho.rs:33-61 | The command loop returns the specified symbol table, or the same failure at the same offset; `LoadCommands.TableExactly` says which that is. |
| `MachO.DecodeSymbols` | crates/tebako-arscope/src/macho.rs:94-123 | The nlist scan returns the entries one by one, or the first failure among them. |
| `MachO.FindCommandFrame` | crates/tebako-arscope/src/macho.rs:38-51 | The walk depends on no byte at or behind the end of the eight-byte header of the command it finds. |
| `MachO.TrailingSlack` | crates/tebako-arscope/src/main.rs:159-168 | Bytes appended to a Mach-O object change neither its symbol table nor any symbol or name. |
| `Utf8.LossyIsIdentityOnUtf8` | crates/tebako-arscope/src/macho.rs:144-146 | The lossy conversion changes a name exactly when it is not UTF-8. |
| `Utf8Exact.Utf8Exactly` | crates/tebako-arscope/src/macho.rs:129-132 | A name counts as UTF-8 exactly when it is the encoding of a sequence of Unicode scalar values. |
| `Utf8Exact.MaximalSubpart` | crates/tebako-arscope/src/macho.rs:144-146 | What one replacement character stands for is the longest start of a character that is there, or one byte. |
| `ScopeRule.KeptExactly` | crates/tebako-arscope/src/macho.rs:124-132 | A definition keeps its name exactly when the name is UTF-8 and reads, behind all its leading underscores, the keep prefix and a rest; for a name that is not UTF-8, exactly when the keep prefix is empty. |
| `ScopeRule.DefaultRule` | crates/tebako-arscope/src/main.rs:40-44 | With the tool's own prefixes: `tebako_` is the public surface, and any other UTF-8 name becomes `__tebako_internal_` and the name. |
| `ScopeRule.RenamedExactly` | crates/tebako-arscope/src/macho.rs:188-211 | Over the archive, exactly these symbols are renamed: the visible definitions outside the public surface, and the references with the lossy name of one, in any member. |
| `ScopeRule.CountsAre` | crates/tebako-arscope/src/macho.rs:186-212 | The two counts are the number of renamed symbols and the number of visible definitions that keep their name. |
| `Utf8.LossyIsUtf8` | crates/tebako-arscope/src/macho.rs:144-146 | It always yields UTF-8, and adds no NUL. |
| `Archive.BsdNamePad` | crates/tebako-arscope/src/main.rs:209-225 | The inline-name length is the smallest number above the name's length, at least 12 and 4 modulo 8. |
| `Archive.PadBsdName` | crates/tebako-arscope/src/main.rs:219-225 | The counting loop finds it. |
| `Archive.WriteMember` | crates/tebako-arscope/src/main.rs:233-279 | The writer appends header, inline name, content and even pad of one member, in either form. |
| `Archive.BuildIndex` | crates/tebako-arscope/src/main.rs:304-366 | The index builder's passes yield the specified index in either form, with 32-bit wrap; `IndexReader.IndexReadsBack` says what a linker reads in it. |
| `IndexReader.IndexReadsBack` | crates/tebako-arscope/src/main.rs:304-366 | Read from its bytes alone (BSD: bytes of all pairs, pairs, bytes of the strings, strings; GNU: count, positions, strings; nothing behind), the index is exactly the list of exported names in order, each with the position of its member's header, if and only if no name holds a NUL. |
| `IndexReader.StringsPadded` | crates/tebako-arscope/src/main.rs:335-349 | The BSD strings are padded with NULs to a multiple of eight, which their size word counts. |
| `IndexReader.IndexStandsAt` | crates/tebako-arscope/src/main.rs:193-206 | The first bytes of the file, character by character, up to the end of the index, in both forms. |
| `IndexReader.HeaderText` | crates/tebako-arscope/src/main.rs:254-264 | Behind the name every header has the columns 0, 0, 0, 644, the decimal size and the closing bytes. |
| `ArchiveProofs.GnuNameRoom` | crates/tebako-arscope/src/main.rs:240-252 | In the GNU form a name goes inline exactly when it is longer than 16 bytes or has a space, in the least multiple of four bytes. |
| `ArchiveProofs.MemberEnds` | crates/tebako-arscope/src/main.rs:272-278 | A member ends with its content, and a newline when its size is odd. |
| `Archive.MemberOffsets` | crates/tebako-arscope/src/main.rs:310-317 | The running offset of the index builder is the announced start of each member. |
| `Archive.WriteArchive` | crates/tebako-arscope/src/main.rs:194-206 | The file is magic, index member and members, in order. |
| `ArchiveProofs.HeaderLength` | crates/tebako-arscope/src/main.rs:254-264 | A header is 60 bytes if and only if the size has at most ten digits and a short GNU name has no multi-byte character. |
| `ArchiveProofs.MemberIsWide` | crates/tebako-arscope/src/main.rs:288-298 | A member occupies at least the size the offset arithmetic counts, evened, and exactly that if and only if its header has 60 bytes. |
| `ArchiveProofs.IndexLength` | crates/tebako-arscope/src/main.rs:369-389 | The announced index size is the length of the built index, for both forms and every member list, 32-bit wrap included. |
| `ArchiveProofs.OffsetIsPosition` | crates/tebako-arscope/src/main.rs:310-317 | The announced offset of a member is the number of bytes the writers put before its header if and only if the headers of the index and of every member before it have 60 bytes; otherwise the header comes later. |
| `ArchiveProofs.IndexOffsets` | crates/tebako-arscope/src/main.rs:318-365 | The j-th index entry, decoded as a linker decodes it, is the position of the header of the member that exports the j-th name. |
| `ArchiveProofs.IndexNames` | crates/tebako-arscope/src/main.rs:324-365 | The string the j-th entry points to is the j-th exported name, NUL-terminated. |
| `ArchiveProofs.MemberStandsAt` | crates/tebako-arscope/src/main.rs:202-206 | Each member stands whole in the file at that position. |
| `ArchiveProofs.OffsetsAscend` | crates/tebako-arscope/src/main.rs:320-323 | The offsets never decrease along the index. |
| `ArchiveReader.ReadMembers` | tools/lib/ar_cross_deduper.rb:50-85 | The reader's loop returns the kept records in order, or fails where a name is missing, for every file. |
| `ArchiveRoundTrip.InlineRoundTrip` | tools/lib/ar_cross_deduper.rb:66-74 | A member written in the inline form is handed back with its name and content if and only if its name is non-empty, NUL-free and not reserved. |
| `ArchiveRoundTrip.PlainRoundTrip` | tools/lib/ar_cross_deduper.rb:75-81 | A member written in the name field is handed back unchanged if and only if its name does not end in a blank or a slash, is not reserved and is not spelled like an inline length or a table reference, whatever long-name table came before. |
| `ArchiveRoundTrip.MemberRoundTrip` | crates/tebako-arscope/src/main.rs:233-279 | Both forms together: written and read back unchanged if and only if the name is readable. |
| `ArchiveRoundTrip.IndexIsSkipped` | tools/lib/ar_cross_deduper.rb:61-62 | The index member the writer puts first is skipped, in both forms. |
| `ArchiveRoundTrip.ArchiveRoundTrips` | tools/lib/ar_cross_deduper.rb:50-85 | The reader applied to a written archive returns exactly the names and contents of its members, in order, if and only if every header has 60 bytes and every name is readable. |
| `ArchiveRoundTrip.StopsAtWide` | tools/lib/ar_cross_deduper.rb:55-57 | The reader finds no header where a member with a longer one stands, and stops. |
| `ForeignArchive.ReferenceRead` | tools/lib/ar_cross_deduper.rb:75-78 | A header `/off` of another writer is kept under the name the long-name table has at that offset, up to the slash, and passed over when the table does not reach there. |
| `ForeignArchive.SlashedNameRead` | tools/lib/ar_cross_deduper.rb:79-82 | A name that a slash ends is kept without the slash. |
| `ForeignArchive.SymbolTableSkipped` | tools/lib/ar_cross_deduper.rb:61-62 | Members named `/`, or with a name that starts with `__.SYMDEF` or `__.STRTAB`, are passed over. |
| `ForeignArchive.TruncatedRead` | tools/lib/ar_cross_deduper.rb:79-82 | A member whose size points past the end of the file is kept with the bytes that are there. |
| `ForeignArchive.LongNameArchiveRead` | tools/lib/ar_cross_deduper.rb:50-85 | A whole GNU archive with a long-name table and one member that refers to it is read as that member under its long name. |
| `ArchiveReader.AlignUpIs` | crates/tebako-arscope/src/main.rs:159-168 | The walks advance to the next multiple of two or four. |
| `ArchiveRoundTrip.WalksAgree` | crates/tebako-arscope/src/main.rs:159-168 | In a BSD archive with padded contents the 2-byte walk and the 4-byte walk visit the same headers and end exactly at the end of the file. |
| `ArchiveRoundTrip.StopsEnd` | crates/tebako-arscope/src/main.rs:159-168 | The visited positions are one for each member, where the writers put it, and then the length of the file. |
| `Pipeline.CollectPassA` | crates/tebako-arscope/src/main.rs:118-143 | Pass A over the archive, member by member. |
| `Pipeline.RewriteMember` | crates/tebako-arscope/src/main.rs:410-437 | One member of pass B: scoped, passed through when it has no LC_SYMTAB, or the reader's failure. |
| `Pipeline.RunArchive` | crates/tebako-arscope/src/main.rs:113-207 | Both passes, the choice of the index form and the write, for every list of Mach-O members. |
| `Pipeline.PassAIsArchiveWide` | crates/tebako-arscope/src/main.rs:118-143 | What pass A collects is the rename set of the link-preservation theorem. |
| `Pipeline.WrittenArchivesWalk` | crates/tebako-arscope/src/main.rs:159-206 | In every BSD archive the tool writes whose member sizes, the index included, have at most ten digits, both member walks agree and end at the end of the file. |
| `Pipeline.NoSymtabStays` | crates/tebako-arscope/src/main.rs:421-433 | A member without LC_SYMTAB still has none after padding, so it is passed through again. |
| `Pipeline.RewriteTwice` | crates/tebako-arscope/src/main.rs:145-171 | A rewritten member defines nothing to rename, and rewriting it returns it unchanged, exported names included. |
| `Pipeline.RescopeIsByteIdentical` | crates/tebako-arscope/src/main.rs:113-207 | Scoping the archive the tool wrote writes the same file, byte for byte. |
| `Pipeline.RunPreservesLinks` | crates/tebako-arscope/src/main.rs:113-207 | End to end: the independent reader takes the written archive apart into members of the input's names; the objects among them are as many as in the input and bind as the input's objects did if and only if the input's names are separable. |
| `Pipeline.MemberView` | crates/tebako-arscope/src/main.rs:145-171 | A rewritten and padded member parses exactly when its input does, and then as the same symbols under their new names. |
| `Pipeline.RunIndexes` | crates/tebako-arscope/src/main.rs:145-206 | The index has one entry for each visible definition of the members as they read back, and its (name, member) pairs are those definitions in order if and only if the kept definitions of the input have UTF-8 names. |
| `Pipeline.DefinitionIsIndexed` | crates/tebako-arscope/src/main.rs:304-366 | Then the j-th entry of the index leads to the header of the member that holds the j-th definition, and its string is that definition's name. |
| `Pipeline.RunIsListed` | crates/tebako-arscope/src/main.rs:145-206 | What a linker reads from the index bytes of the written archive: one item for each visible definition of the members as they read back, in order, leading to the header of the member that holds it; its names are those definitions' names if and only if the kept definitions of the input have UTF-8 names. |
| `Pipeline.FormIsDetected` | crates/tebako-arscope/src/main.rs:178-192 | The file opens with the BSD index exactly when some input reads as a Mach-O object, with the GNU one otherwise. |
| `Pipeline.MemberIsPadded` | crates/tebako-arscope/src/main.rs:159-171 | A written member is its scoped object and fewer than four NULs, up to a multiple of four. |
| `Pipeline.BareMemberIsPadded` | crates/tebako-arscope/src/main.rs:413-433 | A member without LC_SYMTAB is written as it was, with that padding, and exports nothing. |
| `Pipeline.RunFailsExactly` | crates/tebako-arscope/src/main.rs:410-437 | For Mach-O members: the run fails exactly when some member does not read for another reason than having no LC_SYMTAB, with the failure of the first. |
| `Install.Newest` | crates/tebako-cli/src/install.rs:758-766 | The chosen version is offered and satisfies the constraint; there is none only if no offered version satisfies it. |
| `Install.NewestIsGreatest` | crates/tebako-cli/src/install.rs:760-766 | By the dispatcher's comparison, on satisfying versions without a trap, no satisfying version is greater than the chosen one. |
| `Install.NewestExactly` | crates/tebako-cli/src/install.rs:760-766 | For any offers: the chosen version is a greatest one if and only if some offer is at least every satisfying one and strictly above those listed behind it. |
| `Install.NewestMissesGreatest` | crates/tebako-cli/src/install.rs:758-766 | Of the offers 2, 10 and 1a, all admitted by the constraint `>= 0`, the chosen version is 1a, although 2 is above it. |
| `Install.EdgePlanExactly` | crates/tebako-cli/src/install.rs:731-797 | The answer to an edge, over the registries: a plan exactly when one registry and no other carries the name, some offer of it satisfies and the first offer with the chosen version is published, and then that offer's image, strict; each of the four refusals exactly on its own cause. |
| `Install.EdgePlan` | crates/tebako-cli/src/install.rs:731-797 | Every plan carries the edge's name and a version that satisfies its constraint. |
| `Install.MirrorExactly` | crates/tebako-cli/src/install.rs:1098-1136 | An image is refused exactly when its manifest is malformed, or is another identity's and the plan insists on its own, or is absent and cannot be synthesized. |
| `Install.ClosedMeans` | crates/tebako-cli/src/install.rs:1005-1019 | A store is closed exactly when every toolkit or data requirement of an installed manifest is met by an installed version. |
| `Install.PlanInCatalog` | crates/tebako-cli/src/install.rs:752-766 | Every plan of an edge is one of the finitely many pairs the registries offer. |
| `Install.PlanIsNew` | crates/tebako-cli/src/install.rs:1017-1023 | An edge that no installed version satisfies is planned with a version that is not installed. |
| `Install.PlanDecreases` | crates/tebako-cli/src/install.rs:972-976 | So the catalog pairs that are not installed become strictly fewer before the walk recurses. |
| `Install.Store.Place` | crates/tebako-resolve/src/cache.rs:260-291 | An install step adds at most its own image, and leaves it without anchor only on failure. |
| `Install.Store.FinishInstall` | crates/tebako-cli/src/install.rs:899-989 | Terminates on every requirement graph; uninstalls nothing, replaces at most the target, adds only what the target's edges reach; on success the target is installed and everything added is closed; without a fault, store and answer are exactly those of the recursive specification. |
| `Install.Store.InstallClosure` | crates/tebako-cli/src/install.rs:999-1024 | Terminates on every requirement graph, cyclic ones too; removes and replaces nothing and adds only what the edges reach; on success every edge is satisfied and everything added is closed; if all edges were satisfied, nothing changes; without a fault, store and answer are exactly those of the recursive specification. |
| `Install.WalkExtends` | crates/tebako-cli/src/install.rs:1017-1023 | One installed edge keeps the walk's invariant: the added payloads stay reachable and closed. |
| `Install.TailComposes` | crates/tebako-cli/src/install.rs:914-976 | Placing the target first and walking its edges afterwards closes the target too, on success. |
| `Install.ClosedIsKept` | crates/tebako-cli/src/install.rs:972-1024 | If every edge of the store, but for the target's own, was satisfied before a successful install, every edge is satisfied after it. |
| `Install.RepairExactly` | crates/tebako-cli/src/install.rs:914-976 | After a successful install the store is closed if and only if every payload that was there before, other than the target, is closed now. |
| `Install.OpenEdgesAreMet` | crates/tebako-cli/src/install.rs:972-1024 | What that takes of the store before: every open edge of an old payload other than the target must be met by the target or by a payload reachable from the target's edges. |
| `Install.TwoVersionsInOneWalk` | crates/tebako-cli/src/install.rs:972-1024 | A walk over a registry whose a requires b twice, at most 1 and at least 2, installs both versions of b. |
| `Install.HitRepairsNothing` | crates/tebako-cli/src/install.rs:914-976 | A cache hit whose edges are satisfied changes nothing, so the store is closed after it exactly when it was closed before. |
| `Install.AbortedWalkIsNotRepaired` | crates/tebako-cli/src/install.rs:914-1024 | A registry that carries a and b and not c, with a requiring b >= 0 and b requiring c >= 0: installing a on an empty store places and anchors a and b and is aborted at c; installing a again succeeds, changes nothing and leaves a store that is not closed. |
| `CacheProtocol.StepBase` | crates/tebako-bootstrap/src/lib.rs:542-667 | Whatever names the index declares, every step of every process, crashes included, keeps this: the lock is held exactly while installing, and what each process knows of its own artifact is still true. |
| `CacheProtocol.StepSound` | crates/tebako-bootstrap/src/lib.rs:542-667 | Every step keeps this of an artifact that no other job writes over: its file was published by its own job with the digest that job compared, a marker has its artifact, and what is present stays unchanged. |
| `CacheProtocol.RunSound` | crates/tebako-bootstrap/src/lib.rs:542-667 | That invariant holds in every state of every run from a fresh root. |
| `CacheProtocol.RunKeeps` | crates/tebako-bootstrap/src/lib.rs:542-667 | Over every run, such an artifact stays present and unchanged once it is present. |
| `CacheProtocol.GuardedIsSafe` | crates/tebako-bootstrap/src/lib.rs:1121-2338 | So it is safe: whenever a reader finds it vouched for, it is authentic, and the same ever after. |
| `CacheRuns.ExeSafety` | crates/tebako-bootstrap/src/lib.rs:1121-1173 | Over every run, crashes included, an executable that is present was published as the executable with the compared digest and is unchanged ever after, if and only if no declared DLL name puts the DLL or one of its notes at the executable's path. |
| `CacheRuns.ImageSafety` | crates/tebako-bootstrap/src/lib.rs:1927-1929 | Over every run, an existing image marker means that the image is there, verified as the image and never replaced, so that the unlocked look at both files is sound, if and only if no declared DLL name is that of the image or of its marker. |
| `CacheRuns.NamesDecideSafety` | crates/tebako-bootstrap/src/lib.rs:2175-2197 | Both together: every run is safe if and only if every declared bare name is clear of the executable, the image and the image's marker. |
| `CacheRuns.ClearNames` | crates/tebako-bootstrap/src/lib.rs:1689-1695 | Where the executable's name does not end like a note's, as with the asset names of the bootstrap, clear means: not the asset base with the executable's suffix, with `.tfs`, or with `.tfs.sha256`. |
| `CacheRuns.ExeIsOverwritten` | crates/tebako-bootstrap/src/lib.rs:2175-2311 | A run in which the DLL, or a note beside it, is written over the executable, for every declared name that collides. |
| `CacheRuns.ImageIsMistaken` | crates/tebako-bootstrap/src/lib.rs:2175-2323 | A run in which a DLL declared under the image's name, or that of its marker, makes the unlocked look accept what no image install published. |
| `CacheRuns.DllSafety` | crates/tebako-bootstrap/src/lib.rs:2165-2338 | With one declared name, the DLL itself is safe over every run if and only if its name is none of the three the image writes and its marker is not the executable. |
| `CacheRuns.ReplaceableUntilMarked` | crates/tebako-bootstrap/src/lib.rs:2101-2123 | After any run, an image or DLL that is there can be replaced in some continuation if and only if its marker is absent. |
| `CacheRuns.CrashLeavesUnmarked` | crates/tebako-bootstrap/src/lib.rs:2101-2123 | A run from a fresh root, with a crash between rename and marker, that leaves an image without its marker. |
| `CacheProtocol.OthersRely` | crates/tebako-bootstrap/src/lib.rs:542-667 | Across any number of steps of the other processes, every guarded artifact that is present stays, and while this process holds the lock the whole entry stays. |
| `Installers.Process.LockAndStage` | crates/tebako-bootstrap/src/lib.rs:542-620 | Ends holding the lock with the artifact missing, or free of the lock with it present, or refused with the entry as it was found. |
| `Installers.Process.TakeLock` | crates/tebako-bootstrap/src/lib.rs:549-595 | A failure before the lock leaves it untouched. |
| `Installers.Process.CheckDigest` | crates/tebako-bootstrap/src/lib.rs:1146-1167 | Goes on only with content that hashes to the expected digest; otherwise the lock is released and the entry is as it was found. |
| `Installers.Process.PublishEntry` | crates/tebako-bootstrap/src/lib.rs:624-667 | Success leaves exactly the staged content published under the compared digest, the lock free; failure leaves the entry as it was found. |
| `Installers.Process.InstallPayload` | crates/tebako-bootstrap/src/lib.rs:1097-1174 | On every return the lock is free; every error leaves the entry as found, with nothing published; success leaves the executable present, and if this process published it, with the digest of the runtime reference. |
| `Installers.Process.DownloadExecutable` | crates/tebako-bootstrap/src/lib.rs:1753-1905 | The same for the downloaded executable, with the release's checksum; offline it is always refused, and nothing is published unless the release card's contract is met. |
| `Installers.Process.PublishBeside` | crates/tebako-bootstrap/src/lib.rs:2101-2127 | The rename of an artifact beside the executable, and its best-effort marker: the lock is free afterwards in both cases. |
| `Installers.Process.InstallBeside` | crates/tebako-bootstrap/src/lib.rs:2022-2127 | Download, digest and rename of such an artifact, from staging on: published only with the expected digest, refused otherwise with the entry as found. |
| `Installers.Process.ResolveImage` | crates/tebako-bootstrap/src/lib.rs:1916-2142 | The same for the runtime image, whose first look takes no lock; a success without publishing means the marker is there; with the image there the call changes nothing and succeeds, and offline without it it changes nothing and is refused. |
| `Installers.Process.ResolveDll` | crates/tebako-bootstrap/src/lib.rs:2165-2338 | The same for the runtime DLL under the name the cached release index declares; without an index it declares nothing, and only a bare name is ever published; a DLL that is there, a missing digest, an unusable name and offline mode are answered, in that order, without a change. |
| `Installers.Process.Leave` | crates/tebako-bootstrap/src/lib.rs:530-537 | The error exit: staging swept, lock free, entry given back as it was. |
| `Calendar.CivilIsDayByDay` | crates/tebako-cli/src/install.rs:1262-1278 | The closed form equals a calendar that counts one day at a time from 1970-01-01 with the Gregorian month lengths, for every day number. |
| `Calendar.CivilNext` | crates/tebako-cli/src/install.rs:1266-1276 | The date of the next day number is the Gregorian successor of the date. |
| `Calendar.YearOfEraIs` | crates/tebako-cli/src/install.rs:1269-1272 | The year of the era is the one whose days contain the day, so its subtraction does not underflow and the day of year is below 366. |
| `Calendar.NoUnderflow` | crates/tebako-cli/src/install.rs:1272-1274 | The subtraction of the day field does not underflow. |
| `Calendar.SignedAgrees` | crates/tebako-cli/src/lib.rs:562-577 | The signed copy gives the same date on every day number. |
| `Calendar.DayByDayIsValid` | crates/tebako-cli/src/install.rs:1274-1277 | Every reachable date has a month from 1 to 12 and a day within that month. |
| `Calendar.FourDigitYears` | crates/tebako-cli/src/install.rs:1276-1277 | The year has at most four digits exactly below that day. |
| `Calendar.RenderReadsBack` | crates/tebako-cli/src/install.rs:1262-1278 | For every number of seconds the timestamp reads back: its decimal fields are year, month and day of the date that many whole days after 1970-01-01, and hour, minute and second of the rest, with the six separators between them. |
| `Calendar.RenderIsInjective` | crates/tebako-cli/src/install.rs:1262-1278 | Two different times have two different timestamps. |
| `Calendar.RenderLength` | crates/tebako-cli/src/install.rs:1277 | The timestamp has its 20 characters if and only if it lies before the year 10000. |
| `ResponseFile.RewrittenFileTokens` | ci/windows-gnu-link-wrap.c:197-250 | For every input, tokenizing the rewritten file gives exactly the token-wise rewrite of tokenizing the original, tokens cut at a NUL as C strings are. |
| `ResponseFile.PrintedReadsBack` | ci/windows-gnu-link-wrap.c:157-178 | Whatever a token's text, what is printed for it reads back as that text, before a space or the end. |
| `ResponseFile.RewriteIsIdempotent` | ci/windows-gnu-link-wrap.c:114-147 | A rewritten token is not rewritten again. |
| `ResponseFile.RewriteFileTwice` | ci/windows-gnu-link-wrap.c:184-250 | Rewriting a rewritten file changes no byte. |
| `ResponseFile.NulFreeTokens` | ci/windows-gnu-link-wrap.c:197-250 | On a NUL-free file no token is cut. |
| `ResponseFile.TokenIsWrapped` | ci/windows-gnu-link-wrap.c:54-147 | `-lstdc++` becomes `-l:libstdc++.a`, `-lpthread` and `-lwinpthread` become `-l:libwinpthread.a`; a `-Wl,` token keeps its members, their number and order, with exactly those three replaced; every other token is unchanged. |
| `ResponseFile.FileIsWrapped` | ci/windows-gnu-link-wrap.c:184-250 | The rewritten file has as many tokens as the original, and each of them is that replacement of its counterpart. |
| `ResponseGrammar.TokenExactly` | ci/windows-gnu-link-wrap.c:204-241 | The tokenizer returns a token exactly when the text has a reading with that meaning, in a grammar of plain characters, escapes and quoted groups, closed or open; every text has one. |
| `ResponseGrammar.FileReads` | ci/windows-gnu-link-wrap.c:197-203 | Blanks in front of a token are skipped, and each token means what its pieces mean. |
| `ResponseGrammar.CutAtNul` | ci/windows-gnu-link-wrap.c:242-247 | A token is cut exactly at its first NUL. |
| `ResponseGrammar.PrintedBare` | ci/windows-gnu-link-wrap.c:160-178 | A token is put in quotes exactly when it is empty or holds a blank, a quote or a backslash. |
| `ResponseGrammar.PlainFileKept` | ci/windows-gnu-link-wrap.c:184-250 | A file of bare tokens one space apart that need no replacement is written as it was. |
| `ResponseFile.RewriteTokenDup` | ci/windows-gnu-link-wrap.c:114-147 | The comma-list loop computes the specified rewrite, and nothing when no member changes. |
| `ResponseFile.EmitToken` | ci/windows-gnu-link-wrap.c:157-178 | The printer appends exactly the quoted rewrite of the token. |
| `ResponseFile.ReadQuoted` | ci/windows-gnu-link-wrap.c:221-237 | The inner loop reads a quoted group up to its closing quote or the end. |
| `ResponseFile.ReadToken` | ci/windows-gnu-link-wrap.c:204-241 | The token loop reads the text and stops where the specification stops. |
| `ResponseFile.RewriteResponse` | ci/windows-gnu-link-wrap.c:197-250 | The three nested loops over one buffer write the rewritten file, for every input. |
| `ResponseFile.Buf.Putc` | ci/windows-gnu-link-wrap.c:79-90 | The growable buffer appends the character and keeps the rest across a reallocation. |
| `Versions.VersionOrder` | crates/tebako-cli/src/scenario.rs:32-53 | The comparison flips under swap and is transitive, strictly so where one step is strict. |
| `Versions.TrailingZeros` | crates/tebako-cli/src/scenario.rs:30-37 | Any number of trailing segments that parse to 0, however spelled, changes no comparison, on either side. |
| `Versions.PessimisticIsPrefix` | crates/tebako-cli/src/scenario.rs:125-145 | `~> v` means at least v and equal to v on all segments but the last (on the only one, if one) for every version, if and only if the fixed segments of v are numbers and the last of them can be bumped below 2^64. |
| `Versions.BoundIsPrefix` | crates/tebako-cli/src/scenario.rs:130-144 | Below the bumped bound is agreement on the fixed segments. |
| `Versions.RefusesItself` | crates/tebako-cli/src/scenario.rs:131-144 | Where a fixed segment cannot be bumped, the requirement refuses its own version. |
| `Versions.CompareVersions` | crates/tebako-cli/src/scenario.rs:32-53 | The segment loop computes the comparison, missing segments counting as 0. |
| `Versions.BumpedBound` | crates/tebako-cli/src/scenario.rs:130-143 | Parse, pad, truncate, bump and print give the bound the property speaks of. |
| `Versions.SatisfiedBy` | crates/tebako-cli/src/scenario.rs:116-149 | True exactly when every constraint holds. |
| `VersionMeaning.ParseExactly` | crates/tebako-cli/src/scenario.rs:32-53 | A segment is a number exactly when it is perhaps a plus sign, zeros and a numeral below 2^64. |
| `VersionMeaning.VersionCmpExactly` | crates/tebako-cli/src/scenario.rs:30-53 | One version is below another exactly when some segment decides: below by value, a number before a text, or by spelling, with no earlier segment different and missing ones 0. |
| `VersionMeaning.DispatchCmpExactly` | crates/tebako-shim/src/versions.rs:26-51 | The same for the dispatcher, where two numbers go by value and any other two segments by spelling. |
| `VersionMeaning.OperatorsMean` | crates/tebako-cli/src/scenario.rs:116-149 | The seven operators of a requirement, by which version is below which; `~>`, where its bound exists, by equality on all segments but the last. |
| `ConstraintMeaning.ValidExactly` | crates/tpkg/src/manifest.rs:324-356 | A constraint is accepted exactly when every part between its commas is, up to blanks, one of eight operators (none being one) and a version of one to four decimal segments. |
| `ConstraintMeaning.WrittenClause` | crates/tebako-shim/src/versions.rs:97-170 | Such a clause, with blanks anywhere around its parts, matches exactly the versions its operator asks for by the dispatcher's comparison. |
| `ConstraintMeaning.ListsJoin` | crates/tebako-shim/src/versions.rs:97-170 | A comma joins two constraints into one that asks for both. |
| `Constraints.CheckConstraint` | crates/tpkg/src/manifest.rs:324-356 | The clause loop of the grammar check accepts exactly the constraints whose clauses are an operator and one to four decimals. |
| `Constraints.SplitClauses` | crates/tebako-shim/src/versions.rs:97-131 | The clause loop of the evaluator reads the clauses one by one. |
| `Constraints.EvaluateConstraint` | crates/tebako-shim/src/versions.rs:151-170 | A version matches exactly when every clause holds by the dispatcher's comparison. |
| `Constraints.PessimisticUpper` | crates/tebako-shim/src/versions.rs:133-149 | The dispatcher's bound is the scenario's, although the two are built differently. |
| `Constraints.ReadsWhatWasChecked` | crates/tpkg/src/manifest.rs:324-356 | The evaluator reads off every checked clause exactly the version that was checked. |
| `Constraints.ClausesAreDecimal` | crates/tebako-shim/src/versions.rs:97-131 | Every clause of a checked constraint carries one to four decimals. |
| `Constraints.PessimisticClause` | crates/tebako-shim/src/versions.rs:151-170 | On versions of numbers, `~> v` is at least v and equal to v on all segments but the last, when the last of those can be bumped. |
| `Constraints.NumericAgrees` | crates/tebako-shim/src/versions.rs:30-51 | On versions of numbers the dispatcher's comparison is the scenario's. |
| `Constraints.AtLeastMatches` | crates/tebako-shim/src/versions.rs:151-170 | `>= n` and `<= n` are constraints the check accepts, and admit exactly the versions not below and not above n. |
| `Dispatcher.CompareDispatch` | crates/tebako-shim/src/versions.rs:26-51 | The dispatcher's loop computes its comparison, missing segments counting as 0. |
| `Dispatcher.SegmentsOrderedExactly` | crates/tebako-shim/src/versions.rs:30-35 | The segment comparison is an order on a set of segments if and only if it holds no numbers a and b, a at most b by value, with a text that sorts by spelling behind b and before a. |
| `Dispatcher.OrderedExactly` | crates/tebako-shim/src/versions.rs:30-51 | The dotted comparison is a total preorder on a set of versions if and only if the set holds no such trap at a segment up to which the three versions are equal. |
| `Dispatcher.NumericIsTrapFree` | crates/tebako-shim/src/versions.rs:30-51 | Versions whose segments are all numbers hold no trap. |
| `Dispatcher.MixedOrderCycles` | crates/tebako-shim/src/versions.rs:30-51 | The circle 2 < 10 < 1a < 2 of the dotted comparison. |
| `CleanPath.CleanDenotes` | crates/tebako-cli/src/scenario.rs:604-640 | Where both slashes separate, the cleaned path denotes the same location as the path, from any base, under lexical resolution. |
| `CleanPath.PosixExactly` | crates/tebako-cli/src/scenario.rs:613-627 | Where only the forward slash separates, it does so from every directory if and only if the cleaner keeps the same parts as it would if only the forward slash separated. |
| `CleanPath.PosixWithoutBackslash` | crates/tebako-cli/src/scenario.rs:613-627 | Every path without a backslash keeps its POSIX location, from any base. |
| `CleanPath.PosixWithoutUps` | crates/tebako-cli/src/scenario.rs:613-627 | For a path without `..` the condition is that it has no backslash. |
| `CleanPath.BackslashNameIsLost` | crates/tebako-cli/src/scenario.rs:613-627 | A path with a backslash in a name that is left after POSIX resolution never keeps its location. |
| `CleanPath.BackslashIsSplit` | crates/tebako-cli/src/scenario.rs:613 | The file `a\b` is taken for a file b in a directory a. |
| `CleanPath.BackslashMayAgree` | crates/tebako-cli/src/scenario.rs:613-627 | A path with a backslash that keeps its location all the same. |
| `CleanPath.OutputIsNormal` | crates/tebako-cli/src/scenario.rs:604-640 | The output path is in normal form, told from its own parts: no empty or `.` part but the root's and the dot's, `..` only as a leading run of a relative path; it is absolute exactly when the input is, and splitting it gives exactly the parts of the stack. |
| `CleanPath.CleanIsIdempotent` | crates/tebako-cli/src/scenario.rs:604-640 | Cleaning twice is cleaning once. |
| `CleanPath.CleanPathOf` | crates/tebako-cli/src/scenario.rs:613-627 | The stack loop computes the cleaned path. |
| `RuntimeRef.ParserIsExact` | crates/tebako-bootstrap/src/lib.rs:169-216 | The parser accepts exactly the references that decompose into type, version and abi, all non-empty and free of separators and blanks, and returns those components. |
| `RuntimeRef.AcceptedReads` | crates/tebako-bootstrap/src/lib.rs:169-214 | The same with every character written out: an accepted reference reads `type@version;tebako=abi`, and no component is empty or holds a slash, a backslash or a blank. |
| `RuntimeRef.ShaExactly` | crates/tebako-bootstrap/src/lib.rs:216-240 | The digest scanner answers exactly the 64 lower-case hexadecimal digits behind the first `;sha256=`, when nothing but a further parameter follows. |
| `RuntimeRef.ImageExactly` | crates/tebako-bootstrap/src/lib.rs:242-248 | The image scanner answers yes exactly when the word stands between semicolons or ends. |
| `RuntimeRef.PrintedParses` | crates/tebako-cli/src/lib.rs:241-249 | The parser recovers a printed reference if and only if version and abi are clean, the version does not hold the abi key and the abi no semicolon. |
| `RuntimeRef.PrintedExactly` | crates/tebako-bootstrap/src/lib.rs:169-248 | For all components, the three scanners recover exactly what was printed if and only if version and abi are clean, the version does not hold the abi key and the abi no semicolon, the version has no image segment of its own unless the flag is printed, and the digest is one or is the one the version itself carries. |
| `RuntimeRef.PrintedRoundTrips` | crates/tebako-bootstrap/src/lib.rs:169-248 | Clean, semicolon-free components and a digest meet that condition. |
| `RuntimeRef.Press` | crates/tebako-cli/src/lib.rs:241-249 | The appends of the printer build that reference. |
| `RuntimeRef.FindKey` | crates/tebako-bootstrap/src/lib.rs:186-190 | A key with one leading semicolon is first found where it was put, whatever follows, if the text in front does not hold it. |

## Left out

- ScopeProofs.ParseBack: where something is renamed, for the layouts the relocation is written for: the nlist entries lie behind LC_SYMTAB and the grown file is below 4 GiB, or the rewrite could hit the load commands or wrap an offset. On the names that stay the condition is exact. `Linking.ScopedArchiveLinks`, `Linking.RescopeIsIdentity`, `Pipeline.RunPreservesLinks`, `Pipeline.RunIndexes`, `Pipeline.RunIsListed` and the second-scoping lemmas of `Pipeline` share these conditions; `Frame` and `LinkPreservation` do not.
- ArchiveProofs.IndexOffsets: for archives below 4 GiB whose headers have 60 bytes, as are `IndexNames`, `OffsetsAscend`, `IndexReader.IndexReadsBack`, `Pipeline.DefinitionIsIndexed` and `Pipeline.RunIsListed`; the index holds 32-bit offsets. `OffsetIsPosition` says exactly which offsets are right.
- Pipeline.RunPreservesLinks: for archives that read back; `ArchiveRoundTrips` says exactly which do.
- ArchiveReader.ReadMembers: a size field is its leading digits, without the blanks, signs and underscores Ruby's `to_i` also accepts; every field the writer prints is of that form.
- Install.ClosedIsKept: one direction; `OpenEdgesAreMet` is the other, and `AbortedWalkIsNotRepaired` a store that misses both. Which payloads an install adds depends on the registries, so no condition on the store alone is exact.
- CleanPath.PosixExactly: the condition compares two stacks that can be computed from the path. A condition on the backslashes alone is given where the path has no `..`; with `..`, parts that a backslash splits off can cancel each other (`BackslashMayAgree`).
- CacheRuns.DllSafety: for one declared name. With several, names can guard each other by accident; `CacheProtocol.GuardedIsSafe` is sufficient for any number.
- CacheProtocol.StepSound: the index is not one of the modelled files. A DLL installed in place of it changes what later processes read, so `Names.dlls` stands for all names that any index in force during the run declares, those of a replaced index included.
- Installers.Process.Interfere: what other processes do between two steps is its contract, which `CacheProtocol.OthersRely` proves of any number of their steps; its body takes none.
- ELF and COFF members: their rewrite goes through the object crate, whose pass A set is not filtered by the keep rule, so link preservation does not carry over as stated. Archives that mix formats are left out with them.
- The object crate's archive parser: `Pipeline.Input` is what it hands over, with the name already converted to UTF-8. Where the raw reader refuses a Mach-O member that the object crate can read, pass A adds that crate's names; pass B then fails in both.
- Overflow checks of debug builds: 32-bit and 64-bit sums wrap as in release builds, and file offsets are unbounded.
- SHA-256, OpenPGP verification and the successor chain: the hash is an arbitrary function, a signature check may fail.
- Network, file-system and registry failures: any such step may fail; which one fails, and the texts of the messages, are not modelled.
- Lock timeouts and polling: the lock is one atomic step, which a crash undoes. The contents of marker and origin files are arbitrary. The index, checksum and origin files that come with the executable's directory, and the name of the staging directory, are left out; two live processes are taken to have different process ids.
- Deleting cache files by hand, and file systems whose rename is not atomic or whose names ignore case.
- Zero-runtime materialization, shims and the mirror file of an install: one step each that may fail.
- `repack` and the SHA-1 `dedupe` of the cross-archive deduper.
- The link wrapper's argv handling and its static result buffers; allocation failure; the `.wrapped` file name.
- Parsing and describing the scenario's requirements, the drive and UNC branch of the path cleaner, and the bootstrap's handling of a digest cut inside a multi-byte character: references are read as sequences of one-byte characters.
- Argument parsing, progress display, reports, YAML and JSON, code signing and Windows FFI.
