# Verified models of EDK II boot and tool code

Dafny models of the state machines, layout algorithms and byte codecs of this EDK II tree that are
easiest to get wrong, with proofs of what they promise over all inputs and whole runs.

| file | what it models |
|---|---|
| `Bytes.dfy`, `PythonStrings.dfy` | bytes, fixed-width integers, memory; Python's string operations |
| `EventLogFormat.dfy` | the packed TPM event log as a serializer of records |
| `EventLogWalk.dfy` | the digest-list walks, the test that tells the two record formats apart, the dump of an event |
| `EventLogIterator.dfy` | the restartable iterator over the log |
| `EventLogHobs.dfy` | dumping a log, and copying its events out as HOBs |
| `MemoryInit.dfy` | system-memory descriptors, the split around the firmware device (FD), the UEFI region |
| `PatchText.dfy`, `GitDiffCheck.dfy`, `GitDiffGrammar.dfy` | the git diff checker, and the grammar it accepts |
| `FileRules.dfy` | the rules the checker applies to files by their name, and what they mean for whole diffs |
| `AnonymousLabels.dfy` | MASM to NASM: anonymous labels |
| `InfRewriter.dfy`, `InfLineText.dfy` | MASM to NASM: rewriting the INF source list, and the text of the lines written |
| `FormatDos.dfy` | the five substitutions of the DOS formatter |
| `RamMigration.dfy` | the SEC phase: PPI list, hand-off layout, migration of temporary RAM |
| `NotUsedItem.dfy` | unused DEC items: reading the files, and cleaning |
| `RelocationTable.dfy`, `XdrPack.dfy` | the payload's relocation table; XDR packing and the PCD text |

`dafny verify dfyconfig.toml` checks the project.  Proofs use `hide` statements to keep each query small.

How things are modelled:

- Code that changes state is a class or a method with loops, proved equal to a function on values; the
  promises are lemmas about that function.
- The event-log code checks no bound, so its memory is a total function from addresses to bytes, and the
  results hold whatever surrounds the log.  Address 0 is NULL.
- `UINTN` has 64 bits, as on AArch64.  Descriptor ends, the stack switch, the hand-off layout and the
  region's base are computed with wrap-around (`Add64`, `Subtract64`); the platform's memory and FD ranges
  are assumed not to wrap.  Event-log addresses are naturals, within 64 bits for logs (`LogAt`).
- An `ASSERT` of the firmware is a result: no value, or false, where it fails.
- HOB creation may fail; the decision is an arbitrary function of the HOBs so far and of the data.
- Regular expressions are predicates or parameters, except in `FormatDos.dfy`, where leftmost,
  non-overlapping substitution is modelled.

Where the code is not what one would expect, the model follows the code:

- A no-action record that shows a specification signature at offset 32 is sized by the other format.  The
  iteration delivers a log exactly when this happens to no record, or gives the same size
  (`IterationDeliversLogIff`, `AgileSizedRightIff`); `SomeRecordIsMisread` is an example.  For a record with
  a sizable digest list its own bytes decide, even when it is too short to show a signature
  (`MistakenIff`); only for one that is refused anyway may the memory behind it matter.
- The iterator compares only where an event starts with the end of the log.  A log that ends inside a record
  is delivered with that record whole, and the HOB copies what lies behind the log.
  `DeliveredInsideIff` and `DeliveredInsideIffUncut` say when that happens, `HobReachesBehindLog` is the
  consequence, `CutEventIsDelivered` a log of one byte.
- The comment on skipped startup-locality events calls them no-action events; the code does not look at
  the event type.
- The assertions of `InitializeMemory` accept an FD that encloses all of memory
  (`PlacedRegionIsSafeIff`, `EnclosingFdIsAccepted`).
- `MemoryPeim` takes a descriptor that lies wholly below the main memory, or one whose end wraps, for its
  declaration.  `MemoryDescribedIff` and `FdFoundIff` say when main memory is described afterwards and when
  the FD is found; `LowDescriptorHidesMemory` is the failing family.
- `MemoryPeim` compares the FD with the memory top, not with the descriptor's top.  So it may leave an empty
  descriptor (`SplitLeavesEmptyIff`, `EmptyDescriptorIsLeft`), or none that is exactly the FD
  (`FdIsDescribedIff`, `FdStaysUndescribed`).  It ignores its two parameters.
- `SecTemporaryRamSupport` documents an `EFI_INVALID_PARAMETER` result that it never returns, and the
  documented check would not be enough (`MigrationIsIntactIff`, `DocumentedCheckIsIntactIff`,
  `DocumentedCheckIsNotEnough`).  Its split exceeds the copy size for 2 to 15 bytes (`HeapFitsIff`).
- The diff checker reaches its "unexpected patch line" error only on an empty string, which splitting a
  text into lines never makes (`UnexpectedLineIffEmpty`).
- The diff checker cuts a file's name at its first space, so `a b.sh` is no shell script (`SpaceCutsName`).
- References to anonymous labels are replaced wherever the two characters stand, also inside an identifier
  such as `foo@bar` (`IdentifierIsCut`).  A label that starts with one becomes a local label: it separates
  nothing (`LabelBecomesLocal`), and may take the name of a numbered one (`NameImitatesLabel`).
- An anonymous label in front of a statement, as in `@@: dec ecx`, gets no number.  A reference to it has no
  target in the translation (`LabelledStatementIsLost`).
- The INF rewriter looks for a source's name anywhere in a line, so a name inside another file's name or in
  a comment counts (`ReplacementChangesIff`, `AnyMentionChanges`).  The second branch of the replacement is
  never taken (`LongerIsNotContained`).  Taking up blanks may join the end of the new name with what follows to the old
  name again, which is then replaced too (`OneMentionIff`, `NameIsMadeAnew`).
- In a run of changed lines the INF rewriter compares whole lines.  Two lines for one file that differ behind
  the name are both written, so the destination is written twice (`WrittenOnceIff`, `DestinationIsWrittenTwice`).
- The mark of a wanted section of a DEC file counts as an item, and is removed when nothing refers to its
  text (`SectionMarkIsItem`).

## Model

| member | source | states |
|---|---|---|
| EventLogWalk.GetHashInfo | ArmPlatformPkg/PlatformPei/PlatformPeiTpmEventLog.c:27-68 | The table search finds the size of SHA-1, SHA-256, SHA-384 and SHA-512 digests and nothing else. |
| EventLogWalk.GetDigestListSize | ArmPlatformPkg/PlatformPei/PlatformPeiTpmEventLog.c:144-182 | On any memory, the look-ahead loop gives the distance to the end of the digest list, and 0 when an algorithm is unknown. |
| EventLogWalk.WalkPassesDigests | ArmPlatformPkg/PlatformPei/PlatformPeiTpmEventLog.c:163-181 | Over any encoded list the walk stops right after it, at the sum of 2 plus digest size over the list, and fails exactly when some algorithm is unknown; what it reads ahead past the list does not matter. |
| EventLogWalk.DigestsEndOfRecord | ArmPlatformPkg/PlatformPei/PlatformPeiTpmEventLog.c:163-181 | For every record and every memory around it, the common end of the three walks is the record's EventSize field. |
| EventLogWalk.DumpDigests | ArmPlatformPkg/PlatformPei/PlatformPeiTpmEventLog.c:379-412 | The dump's walk ends where the other walks end and shows the digests on the way. |
| EventLogWalk.DumpEvent | ArmPlatformPkg/PlatformPei/PlatformPeiTpmEventLog.c:354-427 | The dump shows the header, the digests up to an unknown algorithm, and after a complete list the data's size and place, and the locality of a startup-locality event. |
| EventLogWalk.DumpShowsRecord | ArmPlatformPkg/PlatformPei/PlatformPeiTpmEventLog.c:354-427 | What is dumped for an encoded record is that record, with its locality if it is a startup-locality event: decoding inverts the encoding. |
| EventLogWalk.DumpStopsAtUnknown | ArmPlatformPkg/PlatformPei/PlatformPeiTpmEventLog.c:383-387 | Of a record with an unknown algorithm exactly the header and the digests before it are dumped. |
| EventLogWalk.LookAheadsStayInside | ArmPlatformPkg/PlatformPei/PlatformPeiTpmEventLog.c:163-181 | Every algorithm read ahead lies inside the record, and the last one inside its EventSize field. |
| EventLogWalk.ShortRecordIsNoSpecId | ArmPlatformPkg/PlatformPei/PlatformPeiTpmEventLog.c:82-109 | A sizable record shorter than 48 bytes never passes for a specification event, whatever bytes follow it. |
| EventLogWalk.SpecIdEventIff | ArmPlatformPkg/PlatformPei/PlatformPeiTpmEventLog.c:82-109 | For every encoded record, the format test holds exactly for specification records and for no-action records with a signature at offset 32. |
| EventLogWalk.MistakenIff | ArmPlatformPkg/PlatformPei/PlatformPeiTpmEventLog.c:82-109 | Whether a sizable record is mistaken is decided by its own bytes, whatever memory follows it. |
| EventLogIterator.Iterator.constructor | ArmPlatformPkg/PlatformPei/PlatformPeiTpmEventLog.c:195-205 | A new iterator stands before the first event. |
| EventLogIterator.Iterator.GetNext | ArmPlatformPkg/PlatformPei/PlatformPeiTpmEventLog.c:222-275 | Status, event, size and new state of a call are the next step of the iteration, also at the end and on an invalid record, where the iterator restarts. |
| EventLogIterator.SuccessAdvances | ArmPlatformPkg/PlatformPei/PlatformPeiTpmEventLog.c:234-274 | On any memory, a success starts inside the log and passes at least 32 bytes. |
| EventLogIterator.RunsAreBounded | ArmPlatformPkg/PlatformPei/PlatformPeiTpmEventLog.c:234-274 | On any memory, the number of successes between restarts is bounded by the log size over 32. |
| EventLogIterator.RecordSizeIff | ArmPlatformPkg/PlatformPei/PlatformPeiTpmEventLog.c:247-269 | The exact condition under which any encoded record is sized, or refused for its digests, as it should be. |
| EventLogIterator.AgileSizedRightIff | ArmPlatformPkg/PlatformPei/PlatformPeiTpmEventLog.c:247-269 | For a sizable crypto-agile record that condition is about its own bytes alone. |
| EventLogIterator.SomeRecordIsMisread | ArmPlatformPkg/PlatformPei/PlatformPeiTpmEventLog.c:247-269 | A concrete record of 66 bytes that is sized as 32. |
| EventLogIterator.IterationIsCyclic | ArmPlatformPkg/PlatformPei/PlatformPeiTpmEventLog.c:222-275 | Over any number of calls on any log whose records are sized right, ending with or inside its last record: all records up to the first unsupported one, in order and adjacent, then one stop with the right status, then all again. |
| EventLogIterator.IterationDeliversLogIff | ArmPlatformPkg/PlatformPei/PlatformPeiTpmEventLog.c:222-275 | On any such log all calls answer as its records demand if and only if every record that is reached is sized right. |
| EventLogIterator.OwnBytesDecide | ArmPlatformPkg/PlatformPei/PlatformPeiTpmEventLog.c:222-275 | A log of supported records, none of which spells the signature in a no-action event, is delivered whatever lies behind it. |
| EventLogIterator.DeliveredRecord | ArmPlatformPkg/PlatformPei/PlatformPeiTpmEventLog.c:222-275 | Each delivered address and size hold the record's bytes, and the last one ends where the records end. |
| EventLogIterator.DeliveredInsideIff | ArmPlatformPkg/PlatformPei/PlatformPeiTpmEventLog.c:240-269 | All delivered events lie inside the log exactly when it ends with its last record or the iteration stops before that one. |
| EventLogIterator.CutIsLog | ArmPlatformPkg/PlatformPei/PlatformPeiTpmEventLog.c:240-269 | Cutting a log anywhere leaves a log of the records that start below the cut, so the results on logs hold for every size. |
| EventLogIterator.DeliveredInsideIffUncut | ArmPlatformPkg/PlatformPei/PlatformPeiTpmEventLog.c:240-269 | For every list of records and every size up to theirs, all delivered events lie inside the log exactly when it does not end inside a delivered record. |
| EventLogIterator.CutEventIsDelivered | ArmPlatformPkg/PlatformPei/PlatformPeiTpmEventLog.c:240-269 | A log of one byte delivers an event of 48 bytes. |
| EventLogHobs.DumpTpmEventLog | ArmPlatformPkg/PlatformPei/PlatformPeiTpmEventLog.c:439-457 | The dump terminates on any memory and shows the events of the iteration, less the specification events. |
| EventLogHobs.DumpDecodesLog | ArmPlatformPkg/PlatformPei/PlatformPeiTpmEventLog.c:439-457 | Reading the dump of a log without mistaken records back gives its crypto-agile records up to the first unsupported one, in order. |
| EventLogHobs.HobProducer.BuildOnePeiEventLogHob | ArmPlatformPkg/PlatformPei/PlatformPeiTpmEventLog.c:472-540 | On any memory: the third walk, the startup-locality test, and one HOB or none, with the status. |
| EventLogHobs.HobProducer.BuildPeiEventLogHobs | ArmPlatformPkg/PlatformPei/PlatformPeiTpmEventLog.c:554-611 | The building loop terminates on any memory and its status and HOBs are those of the iteration; without a log it succeeds and adds no HOB, and it never reports the end of the log. |
| EventLogHobs.BuildNeverNotFound | ArmPlatformPkg/PlatformPei/PlatformPeiTpmEventLog.c:565-608 | For every memory and log, HOBs are only added and the end of the log is no error; no log is a success. |
| EventLogHobs.SkippedIff | ArmPlatformPkg/PlatformPei/PlatformPeiTpmEventLog.c:507-518 | A record is skipped exactly when its data is a startup-locality event whose locality is not 3. |
| EventLogHobs.SkippedData | ArmPlatformPkg/PlatformPei/PlatformPeiTpmEventLog.c:507-518 | Of the events whose data is a startup locality the one for locality 3 is kept and the others are skipped; no other event is. |
| EventLogHobs.GrantedIsFirstRefusal | ArmPlatformPkg/PlatformPei/PlatformPeiTpmEventLog.c:531-536 | The number of HOBs created is the place of the first refusal. |
| EventLogHobs.HobsAreFilteredEvents | ArmPlatformPkg/PlatformPei/PlatformPeiTpmEventLog.c:472-611 | On every log whose records are sized right, ending with or inside its last record, the HOBs are, byte for byte and in order, the events after the first less the skipped ones; a refused HOB or an unsupported event stops the building with its status and leaves exactly the earlier HOBs. |
| EventLogHobs.HobReachesBehindLog | ArmPlatformPkg/PlatformPei/PlatformPeiTpmEventLog.c:528-538 | When the log ends inside its last event and the building succeeds, the last HOB is that event, whole, with the bytes behind the log. |
| EventLogHobs.FirstEventMustBeSpecId | ArmPlatformPkg/PlatformPei/PlatformPeiTpmEventLog.c:578-596 | An empty log, or one that starts with no specification event and none mistaken for it, is invalid and gives no HOB. |
| MemoryInit.HobList.MemoryPeim | ArmPlatformPkg/MemoryInitPei/MemoryInitPeiLib.c:95-201 | The new HOB list is the declaration followed by the split, and the last assertion holds exactly when some descriptor contains the FD. |
| MemoryInit.HobList.DeclareMemory | ArmPlatformPkg/MemoryInitPei/MemoryInitPeiLib.c:101-123 | Main memory is appended exactly when no descriptor passes the test. |
| MemoryInit.HobList.SplitAroundFd | ArmPlatformPkg/MemoryInitPei/MemoryInitPeiLib.c:134-201 | The first descriptor around the FD is changed in place and the new descriptors are appended, in every branch. |
| MemoryInit.HobList.InitializeMemory | ArmPlatformPkg/MemoryInitPei/MemoryInitPeim.c:91-135 | The region installed is the one placed, memory is then described by MemoryPeim; when an assertion on the placement fails, nothing changes. |
| MemoryInit.DisjointIff | ArmPlatformPkg/MemoryInitPei/MemoryInitPeiLib.c:134-201 | Descriptors are pairwise disjoint exactly when no address is described twice. |
| MemoryInit.SplitConservesMemory | ArmPlatformPkg/MemoryInitPei/MemoryInitPeiLib.c:134-201 | The split leaves every address described with the same attributes, as often as before, for any list of descriptors. |
| MemoryInit.SplitKeepsDisjoint | ArmPlatformPkg/MemoryInitPei/MemoryInitPeiLib.c:134-201 | Descriptors are disjoint after the split exactly when they were before. |
| MemoryInit.SplitTouchesOne | ArmPlatformPkg/MemoryInitPei/MemoryInitPeiLib.c:134-201 | At most the first descriptor around the FD changes in place, and exactly one allocation, the FD, is added where it lies in memory and is described. |
| MemoryInit.MemoryPeimConserves | ArmPlatformPkg/MemoryInitPei/MemoryInitPeiLib.c:95-201 | Over all of MemoryPeim, memory is what it was, plus the main memory when it was not declared. |
| MemoryInit.MemoryPeimKeepsDisjointIff | ArmPlatformPkg/MemoryInitPei/MemoryInitPeiLib.c:95-201 | The exact condition for disjoint descriptors at the end. |
| MemoryInit.MemoryDescribedIff | ArmPlatformPkg/MemoryInitPei/MemoryInitPeiLib.c:95-201 | After MemoryPeim all of main memory is described exactly when no descriptor passed the declaration test or it was all described before. |
| MemoryInit.AcceptedDescriptorCoversIff | ArmPlatformPkg/MemoryInitPei/MemoryInitPeiLib.c:104-110 | A descriptor that passes the declaration test covers the main memory exactly when it ends at its top or reaches the top of the address space. |
| MemoryInit.FdFoundIff | ArmPlatformPkg/MemoryInitPei/MemoryInitPeiLib.c:134-200 | The last assertion fails exactly when the FD lies in memory, some descriptor passed the declaration test, and none contains the FD. |
| MemoryInit.LowDescriptorHidesMemory | ArmPlatformPkg/MemoryInitPei/MemoryInitPeiLib.c:104-200 | Every single descriptor wholly below main memory suppresses its declaration: main memory stays undescribed, and an FD inside it is not found. |
| MemoryInit.FdIsDescribedIff | ArmPlatformPkg/MemoryInitPei/MemoryInitPeiLib.c:148-191 | The allocation HOB is the FD, and some descriptor is exactly the FD, unless the FD starts its descriptor, ends at the memory top, and the descriptor goes on above. |
| MemoryInit.FdStaysUndescribed | ArmPlatformPkg/MemoryInitPei/MemoryInitPeiLib.c:95-201 | A concrete platform and list for which no descriptor is exactly the FD after all of MemoryPeim. |
| MemoryInit.SplitLeavesEmptyIff | ArmPlatformPkg/MemoryInitPei/MemoryInitPeiLib.c:148-161 | In a list without empty descriptors the split leaves one exactly when the FD is its whole descriptor and does not end at the memory top. |
| MemoryInit.EmptyDescriptorIsLeft | ArmPlatformPkg/MemoryInitPei/MemoryInitPeiLib.c:148-161 | A concrete platform and list that end with an empty descriptor. |
| MemoryInit.PlacedRegionIsSafeIff | ArmPlatformPkg/MemoryInitPei/MemoryInitPeim.c:95-126 | With the assertions holding, the region lies in memory and misses the FD exactly when it fits and the FD does not enclose all of memory, clamped top included. |
| MemoryInit.HighestSafeRegion | ArmPlatformPkg/MemoryInitPei/MemoryInitPeim.c:108-126 | The region chosen is the highest of all safe ones. |
| MemoryInit.PlacedIffSafeExists | ArmPlatformPkg/MemoryInitPei/MemoryInitPeim.c:108-119 | With an FD in memory, a region is chosen exactly when there is a safe one. |
| MemoryInit.PlacedBesideFdIff | ArmPlatformPkg/MemoryInitPei/MemoryInitPeim.c:119-126 | With any other FD, a region is chosen exactly when the FD misses memory or goes beyond both its ends. |
| MemoryInit.EnclosingFdIsAccepted | ArmPlatformPkg/MemoryInitPei/MemoryInitPeim.c:121-126 | A concrete FD around all of memory passes the assertions and contains the region. |
| MemoryInit.RegionInsideOneDescriptor | ArmPlatformPkg/MemoryInitPei/MemoryInitPeim.c:95-132 | Starting without system memory, one of the disjoint descriptors that MemoryPeim builds contains the whole safe region, and its last assertion holds. |
| PatchText.CrlfIff | BaseTools/Scripts/PatchCheck.py:522-527 | The ending found is CRLF exactly for one CRLF after text that ends in no line break. |
| PatchText.MatchesHeader | BaseTools/Scripts/PatchCheck.py:461-465 | The loop over prefixes recognises exactly the known header lines. |
| PatchText.NewFileIndexIff | BaseTools/Scripts/PatchCheck.py:500-504 | An index line announces a new file exactly when the hash before the dots is all zeros. |
| FileRules.RulesOfFile | BaseTools/Scripts/PatchCheck.py:410-441 | For every name without a space, the command line gives that name; CRLF is enforced exactly for names that are no rich text, no shell script and not read by git, tabs are refused exactly for those that are no rich text, no makefile and not read by git, each class told from how the name is built. |
| FileRules.SpaceCutsName | BaseTools/Scripts/PatchCheck.py:411-411 | A name with a space is treated as the part before it. |
| FileRules.BaseNameIff | BaseTools/Scripts/PatchCheck.py:436-437 | The base name of a path is the one name without a slash that it is, or ends in behind a slash. |
| FileRules.ShellScript | BaseTools/Scripts/PatchCheck.py:418-427 | Every name with .sh is freed from CRLF and, outside one directory, not from the tab rule. |
| FileRules.Makefile | BaseTools/Scripts/PatchCheck.py:436-441 | Every makefile in any directory is freed from the tab rule and, outside one directory, not from CRLF. |
| FileRules.SourceFile | BaseTools/Scripts/PatchCheck.py:410-441 | Every name with .c is under both rules, but for the two directories. |
| FileRules.OneLineDiffAcceptedIff | BaseTools/Scripts/PatchCheck.py:389-549 | Over the whole run, a diff that adds one line to a file or submodule is accepted exactly when the file is rich text or the line meets the rules for that name. |
| FileRules.ShellScriptMayHaveLf | BaseTools/Scripts/PatchCheck.py:389-549 | The same line ending in LF is accepted in x.sh and refused in x.c. |
| FileRules.BinaryIsListedIffNew | BaseTools/Scripts/PatchCheck.py:446-467 | Over the whole run, a binary file is never refused, and is listed exactly when its earlier hash is all zeros. |
| FileRules.FirstLineIff | BaseTools/Scripts/PatchCheck.py:410-444 | A first line is accepted exactly when it is a command or white space. |
| FileRules.TextAfterPatchIff | BaseTools/Scripts/PatchCheck.py:395-407 | After the end of the patch any lines may follow, except a diff command. |
| FileRules.OtherHunkLines | BaseTools/Scripts/PatchCheck.py:469-482 | Context, removed lines, bare CRLF and the no-newline note are accepted in every file. |
| GitDiffCheck.GitDiffCheck.constructor | BaseTools/Scripts/PatchCheck.py:364-376 | The loop terminates and ends in the final state of the run. |
| GitDiffCheck.GitDiffCheck.Run | BaseTools/Scripts/PatchCheck.py:389-482 | One step over the fields is the step function, with its fall-through transitions; file and binary flag are never read before they are set. |
| GitDiffCheck.GitDiffCheck.CheckAddedLine | BaseTools/Scripts/PatchCheck.py:522-549 | The ok flag survives exactly when the added line meets every rule of its file. |
| GitDiffCheck.StepAdvances | BaseTools/Scripts/PatchCheck.py:372-375 | Every step advances, keeps what later steps read set, keeps "a format error is an error", and never clears an error. |
| GitDiffCheck.UnexpectedLineIffEmpty | BaseTools/Scripts/PatchCheck.py:469-482 | The "unexpected patch line" error is reached exactly by an empty line. |
| GitDiffGrammar.CheckerAcceptsGrammar | BaseTools/Scripts/PatchCheck.py:364-549 | For every list of lines: no error exactly when a parse tree of the grammar has these lines and its added lines outside .rtf files pass; no format error exactly when a parse tree has these lines. |
| GitDiffGrammar.TreeIsAccepted | BaseTools/Scripts/PatchCheck.py:389-482 | Every tree is accepted, from any point of reading. |
| GitDiffGrammar.AcceptedHasTree | BaseTools/Scripts/PatchCheck.py:389-482 | Every accepted list of lines has a tree, from any point of reading. |
| GitDiffGrammar.NewBinariesAreListed | BaseTools/Scripts/PatchCheck.py:449-465 | On every diff of the grammar the list of new binary files is the sections with a binary body whose headers announce a new file, in order. |
| AnonymousLabels.AsmConverter.TranslateAsm | BaseTools/Scripts/ConvertMasmToNasm.py:421-423 | An anonymous label takes the next number; every line is emitted with the current one. |
| AnonymousLabels.AsmConverter.Convert | BaseTools/Scripts/ConvertMasmToNasm.py:270-292 | Starting its count afresh, it appends the translation of the whole program to the output. |
| AnonymousLabels.AnonLabelInjective | BaseTools/Scripts/ConvertMasmToNasm.py:531-532 | Different counts give different labels. |
| AnonymousLabels.FourPassesAreOne | BaseTools/Scripts/ConvertMasmToNasm.py:521-529 | The four replacements in a row equal one reading from the left that replaces each reference. |
| AnonymousLabels.ReferencesAreNamed | BaseTools/Scripts/ConvertMasmToNasm.py:505-529 | In a converted line every back and forward reference in the text and in the label becomes the name for that direction; lines of other kinds keep both, and no line gains or loses a label. |
| AnonymousLabels.PlainLabelStays | BaseTools/Scripts/ConvertMasmToNasm.py:505-529 | A label without an @ stays as it is, so different ones stay different. |
| AnonymousLabels.IdentifierIsCut | BaseTools/Scripts/ConvertMasmToNasm.py:521-529 | The two characters are replaced inside an identifier too. |
| AnonymousLabels.TargetsArePreserved | BaseTools/Scripts/ConvertMasmToNasm.py:270-292 | For every program, statement and direction, a line defines what the name for that direction means in NASM exactly when no ordinary label lies between, not even on the line of the use, and it is an anonymous label alone on its line that was the nearest one in MASM, or its label becomes the same name. |
| AnonymousLabels.LocalNameIff | BaseTools/Scripts/ConvertMasmToNasm.py:521-529 | Converting a label makes it local exactly when it starts with a reference. |
| AnonymousLabels.LabelBecomesLocal | BaseTools/Scripts/ConvertMasmToNasm.py:521-529 | A concrete program where such a label lies between and the target is kept. |
| AnonymousLabels.NameImitatesLabel | BaseTools/Scripts/ConvertMasmToNasm.py:521-532 | A back reference followed by a digit becomes the name of the label with that digit appended to its number. |
| AnonymousLabels.ReferencesNeverMove | BaseTools/Scripts/ConvertMasmToNasm.py:270-292 | Such labels apart, a translated reference means the same anonymous label as before or nothing. |
| AnonymousLabels.LabelledStatementIsLost | BaseTools/Scripts/ConvertMasmToNasm.py:421-423 | Such labels apart, a reference to an anonymous label in front of a statement means nothing after the translation. |
| InfRewriter.ReplaceInLine | BaseTools/Scripts/ConvertMasmToNasm.py:105-117 | The replacement loop tries the name with fewer and fewer blanks. |
| InfRewriter.ReplacementChangesIff | BaseTools/Scripts/ConvertMasmToNasm.py:105-117 | For a longer replacement, a line changes exactly when it contains the name, anywhere. |
| InfRewriter.SpacingIsPreservedIff | BaseTools/Scripts/ConvertMasmToNasm.py:105-117 | The length of a line stays exactly when the name is gone once the occurrences with enough blanks behind them are replaced; in general the line grows, pass by pass, by what each occurrence replaced then lacks in blanks. |
| InfRewriter.LongerIsNotContained | BaseTools/Scripts/ConvertMasmToNasm.py:109-110 | The branch for a replacement inside the name is never taken for a longer one. |
| InfRewriter.PaddingKeepsLength | BaseTools/Scripts/ConvertMasmToNasm.py:106-108 | A replacement that is not longer is padded and keeps the length of every line. |
| InfRewriter.MappedOutgrows | BaseTools/Scripts/ConvertMasmToNasm.py:749-764 | Every source that maps to a .nasm file has a shorter name, which blanks cannot make equal. |
| InfRewriter.MentionIsFirst | BaseTools/Scripts/ConvertMasmToNasm.py:858-869 | The source that decides about a line is the first one in the list whose name the line contains. |
| InfRewriter.AnyMentionChanges | BaseTools/Scripts/ConvertMasmToNasm.py:858-869 | A source's name anywhere in a line, also inside another name, changes the line. |
| InfRewriter.ChangedNamesDestination | BaseTools/Scripts/ConvertMasmToNasm.py:864-864 | Every changed line names the destination. |
| InfLineText.ChangedStart | BaseTools/Scripts/ConvertMasmToNasm.py:858-887 | Every changed line is the old one up to the first place of the deciding source, indentation included, and has the destination there. |
| InfLineText.OneMentionIff | BaseTools/Scripts/ConvertMasmToNasm.py:105-117 | A line that mentions the source once becomes that line with the destination in its place, less the blanks taken up, exactly unless blanks were taken up and that text contains the source again. |
| InfLineText.OneMentionIsWritten | BaseTools/Scripts/ConvertMasmToNasm.py:858-893 | What is written for such a line: the converted line with a newline unless the run has it, then the old line where the source is kept. |
| InfLineText.NameIsMadeAnew | BaseTools/Scripts/ConvertMasmToNasm.py:112-117 | A concrete line where the source appears again. |
| InfRewriter.FindChange | BaseTools/Scripts/ConvertMasmToNasm.py:858-869 | Though it looks at results only, the loop finds the first source that occurs in the line: none, and the line stays; else that source is replaced and decides whether the old line stays. |
| InfRewriter.InfFile.RewriteAt | BaseTools/Scripts/ConvertMasmToNasm.py:858-898 | One turn replaces one line by what is due for it, inserting before it where the old line stays. |
| InfRewriter.InfFile.UpdateInfAsmFile | BaseTools/Scripts/ConvertMasmToNasm.py:854-901 | The loop terminates although it inserts into the list it walks, and leaves the rewritten lines. |
| InfRewriter.OldLinesSurvive | BaseTools/Scripts/ConvertMasmToNasm.py:854-901 | The old lines in the result are exactly those that contain no source's name and those whose first source is kept, unchanged and in order. |
| InfRewriter.RunWritesLinesOnce | BaseTools/Scripts/ConvertMasmToNasm.py:871-893 | The converted lines written in a run of changed lines are, up to blanks around them, the first occurrences of those asked for. |
| InfRewriter.WrittenOnceIff | BaseTools/Scripts/ConvertMasmToNasm.py:871-893 | The destination is written at most once in a run exactly when all its converted lines are equal, up to blanks around them. |
| InfRewriter.DestinationIsWrittenTwice | BaseTools/Scripts/ConvertMasmToNasm.py:871-893 | A concrete run of two lines that writes the destination twice. |
| InfRewriter.FirstOccurrencesAreUnique | BaseTools/Scripts/ConvertMasmToNasm.py:871-893 | First occurrences have no duplicate and miss no text. |
| InfRewriter.RunsAreSeparate | BaseTools/Scripts/ConvertMasmToNasm.py:891-893 | An unchanged line ends a run: what follows does not depend on what came before. |
| FormatDos.FormatIsReference | BaseTools/Scripts/FormatDosFiles.py:29-42 | For every content the five substitutions equal a line-by-line reference. |
| FormatDos.PassesAddCr | BaseTools/Scripts/FormatDosFiles.py:33-34 | The first two substitutions together put a CR before exactly the newlines that lack one. |
| FormatDos.FormatNormalizes | BaseTools/Scripts/FormatDosFiles.py:29-42 | For every content the result is in normal form and formatting is idempotent. |
| FormatDos.FixedIffNormal | BaseTools/Scripts/FormatDosFiles.py:29-42 | Exactly the contents in normal form are left alone. |
| FormatDos.FormatEnd | BaseTools/Scripts/FormatDosFiles.py:35-36 | The result ends in CRLF unless the content is empty or ends in a CR. |
| FormatDos.TabBecomesTwoSpaces | BaseTools/Scripts/FormatDosFiles.py:39-40 | A tab inside a line becomes two spaces and the rest of the line stays. |
| FormatDos.FormatKeepsInk | BaseTools/Scripts/FormatDosFiles.py:29-42 | All bytes that are no white space keep their values and order. |
| RamMigration.CopyMem | ArmPlatformPkg/Sec/Sec.c:59-64 | A block copy, for overlapping ranges too; one that does not fit into memory fails. |
| RamMigration.SecTemporaryRamSupport | ArmPlatformPkg/Sec/Sec.c:35-69 | Memory after the call is the stack copied, then the heap copied, and the delta is the 64-bit difference of the stacks; when the stack's share wraps, the copy fails and nothing changes. |
| RamMigration.HeapFitsIff | ArmPlatformPkg/Sec/Sec.c:48-54 | The heap's share exceeds the copy size exactly for 2 to 15 bytes. |
| RamMigration.AlignedSplit | ArmPlatformPkg/Sec/Sec.c:48-54 | For aligned sizes both shares are aligned and differ by at most one unit. |
| RamMigration.MigrationIsIntactIff | ArmPlatformPkg/Sec/Sec.c:48-64 | Both areas arrive intact for every content of memory exactly when the new stack misses the old heap. |
| RamMigration.StackAlwaysArrives | ArmPlatformPkg/Sec/Sec.c:48-64 | The stack arrives intact for every placement. |
| RamMigration.MigrationTouchesNothingElse | ArmPlatformPkg/Sec/Sec.c:59-64 | Nothing outside the permanent area changes. |
| RamMigration.DeltaMapsStack | ArmPlatformPkg/Sec/Sec.c:66-66 | The delta maps each address of the old stack to its copy, wrap-around included. |
| RamMigration.DocumentedCheckIsIntactIff | ArmPlatformPkg/Sec/Sec.c:26-29 | Of the calls that pass the documented check, exactly those are intact whose permanent area starts below the temporary one or above its heap, or that have no heap or no stack. |
| RamMigration.DocumentedCheckIsNotEnough | ArmPlatformPkg/Sec/Sec.c:26-29 | A concrete call passes the documented check and loses the heap. |
| RamMigration.SecMain | ArmPlatformPkg/Sec/Sec.c:201-220 | In 64-bit arithmetic, PPI list, heap and stack tile the stack area, aligned, with the split of the migration, exactly when the list fits and the rest can be split. |
| RamMigration.HandOffMigrates | ArmPlatformPkg/Sec/Sec.c:203-220 | What was handed to PEI as heap and stack arrives at the two ends of permanent memory. |
| RamMigration.CreatePpiList | ArmPlatformPkg/Sec/Sec.c:93-130 | For a platform list of any size, memory holds the whole descriptors in order, then the transfer list's, the last one flagged, and behind them only left-over bytes and old memory. |
| RamMigration.PpiListOrder | ArmPlatformPkg/Sec/Sec.c:93-121 | The bytes of the list are the common descriptors, then the platform's, then the transfer list's. |
| RamMigration.Flag | ArmPlatformPkg/Sec/Sec.c:127-127 | The flag is set and the other bits stay. |
| RamMigration.ReaderSeesListIff | ArmPlatformPkg/Sec/Sec.c:113-127 | A reader that stops at the first flag sees the whole list exactly when no earlier descriptor is flagged. |
| NotUsedItem.ParseDscFdfInfContent | BaseTools/Scripts/DetectNotUsedItem.py:88-98 | The backward loop that removes by value returns the lines that are no comment and no bare newline, cleaned, in order, duplicates included. |
| NotUsedItem.RemoveKeepsClean | BaseTools/Scripts/DetectNotUsedItem.py:92-93 | Removing the first equal of a dropped line leaves the clean lines as they are. |
| NotUsedItem.CleanLinesSelect | BaseTools/Scripts/DetectNotUsedItem.py:88-98 | The clean lines are, at strictly increasing line numbers, all lines that are not dropped, each cleaned. |
| NotUsedItem.CleanLineOf | BaseTools/Scripts/DetectNotUsedItem.py:94-97 | A cleaned line is what stands before the first #, without the white space around it. |
| NotUsedItem.CommentIff | BaseTools/Scripts/DetectNotUsedItem.py:68-68 | A comment is a line whose first character that is no white space is a #. |
| NotUsedItem.ParseDecContent | BaseTools/Scripts/DetectNotUsedItem.py:60-79 | Items are the lines of wanted sections that are no comment or bare newline; an item's block is its line and the wanted lines above it back to the previous item. |
| NotUsedItem.WantedIff | BaseTools/Scripts/DetectNotUsedItem.py:68-71 | The nearest section mark at or above a line, comments apart, decides whether it is wanted. |
| NotUsedItem.ItemNameOf | BaseTools/Scripts/DetectNotUsedItem.py:76-76 | The name is what stands before the first =, bar or #, without the white space around it. |
| NotUsedItem.Clean | BaseTools/Scripts/DetectNotUsedItem.py:126-139 | The cleaned file is, at strictly increasing line numbers, exactly the lines that belong to no unused item. |
| NotUsedItem.ItemIsRemovedIffUnused | BaseTools/Scripts/DetectNotUsedItem.py:60-139 | Across parsing and cleaning, the line of an item goes exactly when the item is unused. |
| NotUsedItem.UsedItemStays | BaseTools/Scripts/DetectNotUsedItem.py:60-139 | The cleaned file has the line of every used item and every line outside wanted sections. |
| NotUsedItem.SectionMarkIsItem | BaseTools/Scripts/DetectNotUsedItem.py:70-77 | The mark of a wanted section is itself an item, removed exactly when its text is unused. |
| RelocationTable.BuildTable | UefiPayloadPkg/UniversalPayloadBuild.py:279-289 | The nested loops build the packed entries of all blocks, padded to a page, and fail exactly when an entry of a real type does not fit its fields. |
| RelocationTable.BuildEntryBinary | UefiPayloadPkg/UniversalPayloadBuild.py:294-312 | Image, table and padding, with start and size of the header; nothing when the table fails. |
| RelocationTable.TableReadsBack | UefiPayloadPkg/UniversalPayloadBuild.py:279-312 | For every image and entries that fit, the binary starts with the image; reading pairs from RelocStart up to a zero type, which always exists, returns exactly the entries of a real type with the offset added; DataSize is a whole number of pages, at most two more than needed. |
| XdrPack.XdrPackBuffer | BaseTools/Scripts/BinToPcd.py:51-60 | The loop packs every file, and fails exactly when a length needs more than 32 bits. |
| XdrPack.PackRoundTrip | BaseTools/Scripts/BinToPcd.py:51-60 | Unpacking by section 4.10 of RFC 4506 returns the same files. |
| XdrPack.BigEndianValue | BaseTools/Scripts/BinToPcd.py:55-55 | Lengths have their most significant byte first. |
| XdrPack.UnpackedIsPacked | BaseTools/Scripts/BinToPcd.py:51-60 | Whatever unpacks is the packing of its files: the encoding is unique. |
| XdrPack.PackedLength | BaseTools/Scripts/BinToPcd.py:54-59 | The length is the sum of 4 plus each length rounded up to 4. |
| XdrPack.ByteArray | BaseTools/Scripts/BinToPcd.py:62-77 | Text and length are those of the packed or the joined files. |
| XdrPack.TextRoundTrip | BaseTools/Scripts/BinToPcd.py:77-77 | The printed text parses back to the same bytes. |

## Left out

- Debug output, the dump of the specification event, cache, MMU and PEI service calls: effects on hardware or foreign code.
- The search for the event log in the transfer list: its result is a parameter.
- Wrap-around of event-log addresses: a record whose sizes reach beyond the address space is sized without wrapping.
- MemoryInit.HobList.MemoryPeim: platforms whose memory or FD range wraps around the address space are excluded; both are constants of the build.
- BuildMemoryTypeInformationHob: a fixed table.
- MemoryInit.HobList.InitializeMemory: `UINTN` of 32 bits is not modelled, and such platforms are excluded here too.
- Commit messages, e-mail addresses and git calls of the patch checker; splitting the diff into lines; the search for obsolete debug macros and the script's own path, which are parameters; letters outside ASCII in makefile names.
- The MASM conversions other than anonymous labels, the recognition of the kind of a line, and comments behind labels: regular expressions over single lines.
- The mapping from INF sources to NASM files, and all file handling of the scripts.
- The search for references to DEC items, and the recognition of section marks, which is a parameter.
- MakeFitImage, pefile and the ELF build of the payload: called but not part of this model.
