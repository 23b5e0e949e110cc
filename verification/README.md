# Verified models of the bundled archive and configuration code of GridDyn

GridDyn carries its own copies of Minizip and CLI11 and a Python binding.  This project models the
parts of them that hold algorithms and proves what they promise, or exactly when they do.

- **Skiplist set** (`SkipIndex`, `SkipRandom`, `Skipset`): nodes on the heap, random levels, a scratch
  path, and a longjmp out of any allocation that fails.  Over every run, every total order, every
  random stream on which the coin flips end in time, and every pattern of failures it is a set, and
  which blocks are left at the end is stated exactly.
- **Configuration values** (`CliText`, `CliEscape`, `CliUtf8`, `CliBinary`, `CliSplit`, `CliBrackets`,
  `CliConfig`, `CliTables`, `CliRoundTrip`, `CliMultiLine`, `CliHand`): what CLI11 prints for one or more
  strings it reads back as the same strings, except for exactly characterised long texts; and what
  lists, arrays, texts and comments written by hand are read as.
- **Configuration sections** (`CliSections`): every option of a file comes out in its section with its
  values, and the `++` and `--` items are a well-bracketed walk of the section tree exactly for tidy files.
- **Checked multiplication** (`CliMultiply`).
- **ZIP repair and reader** (`ZipFormat`, `ZipRepair`, `ZipSearch`, `ZipInfo`, `ZipNames`, `ZipReader`,
  `ZipRecords`, `ZipRecover`, `ZipRead`, `ZipExtract`, `ZipWitness`): repairing keeps all entries at the
  front of a file; the reader accepts what it writes and shows the recovered entries as they were; data
  comes out whole however the reads are cut, and extracting a damaged file of stored entries gives
  their data as it stands in that file.
- **Traditional PKWARE encryption** (`ZipCrypt`): 64-bit unmasked keys compute the 32-bit cipher.
- **Python binding** (`GridColumns`, `GridReferences`, `GridLifecycle`): column names, stale references,
  load and reset flags.

`Numbers` and `CStrings` hold the powers of two and the C strings that several of them need.

A file is a byte sequence with a position.  Random words, allocation results, the CRC table, the step
of `crc32()`, the comparison of keys, the results of solver and loader calls, and whether `strtold`
takes a text as a number are parameters, so the results hold for all of them.  A method that follows
the code step by step is proved equal to a function, and the lemmas are about that function.

Where the code does not do what its documentation says or its callers may expect, the code is modelled
and the exact behaviour is stated:

- `skipset.h` says that a set stays usable after an allocation failure.  Its contents do, but a
  node left by a cut-short insertion is lost by the next one that links or leaves a node
  (`Skipset.Lifetime`, `Skipset.LossAfterRecovery`; `Skipset.LossHappens` is such a run).
- A single text of more than 100 characters that holds a line break, a tab, a quote or a backslash is
  printed between triple quotes and not escaped.  It comes back only if no line but the last ends in a
  backslash or in three quotes, the first and the last of several lines are not empty, and the text
  has no quotes around it and does not look like an array (`CliMultiLine.EntryRoundTrip`).
- A comment behind a list without brackets cuts the list when its first value has quotes, or when any
  value holds the comment character; lists in brackets stay whole (`CliHand.ListBeforeComment`).
- A `[default]` header behind a nested section leaves the parent sections open, unless another section
  header follows at once (`CliSections.DefaultLeavesParentOpen`, `CliSections.FileIsBracketed`).
- Escapes above 0x10FFFF are dropped without an error (`CliUtf8.EscapesDecode`, `CliUtf8.FirstToVanish`).
- A short read is not an error for the ZIP reader, because UNZ_EOF is UNZ_OK: numbers behind the end of
  the file read as 0.  So a file opens although its end record is cut (`ZipReader.Open`), and a header
  that is cut behind its magic is taken (`ZipInfo.GetInfo`, `ZipReader.UnzFile.CheckCoherency`);
  `ZipWitness.CutRecords` has one of each.
- When the numbers in the end record of a rebuilt archive spell its signature again, the archive opens
  without entries or not at all (`ZipRecover.ArchiveOpens`; `ZipWitness.StrayMarkEmpties` and
  `ZipWitness.StrayMarkRefuses` are such archives).
- With 0xffff entries or more the walk ends with UNZ_BADZIPFILE instead of the end of the list
  (`ZipRecover.WalkEnd`, `ZipWitness.FullDirectory`), and extraction stops behind entry 0xffff
  (`ZipExtract.ExtractAll`).
- Opening with a password does not take the 12 header bytes off the number of bytes to read
  (`ZipRead.EncryptedEntry`), so a raw read goes 12 bytes too far (`ZipRead.ExtractWithPassword`).
- Field names with a NUL can cost a row a value (`GridColumns.NulLosesValue`).

## Model

| member | source | states |
|---|---|---|
| `SkipIndex.WalkIsLevel` | ThirdParty/Minizip/skipset.h:311-331 | following the links of level i meets exactly the nodes higher than i, in list order |
| `SkipIndex.LevelsNest` | ThirdParty/Minizip/skipset.h:334-376 | each level is a subsequence of the level below, and level 0 holds every node |
| `SkipIndex.NextAfterInsert` | ThirdParty/Minizip/skipset.h:370-373 | splicing a node in redirects, on the levels it reaches, exactly the link of the last node before it; every other link stays |
| `SkipIndex.NextOfInserted` | ThirdParty/Minizip/skipset.h:370-373 | the new node points to where its predecessor pointed |
| `SkipIndex.LastIffNextBeyond` | ThirdParty/Minizip/skipset.h:321-326 | the inner loop of the search stops exactly at the last node before the key on that level |
| `SkipIndex.RankSplits` | ThirdParty/Minizip/skipset.h:311-331 | in a sorted list under any total order the first key not below k decides membership of k |
| `SkipIndex.InsertKeepsSorted` | ThirdParty/Minizip/skipset.h:334-376 | inserting an absent key at its rank keeps the list strictly sorted |
| `SkipIndex.MembersAfterInsert` | ThirdParty/Minizip/skipset.h:334-376 | the members afterwards are the old ones and the new key |
| `SkipRandom.SentinelKeepsBits` | ThirdParty/Minizip/skipset.h:346-351 | a 32-bit word with a one bit above it stores exactly the bits of the word |
| `SkipRandom.Refill` | ThirdParty/Minizip/skipset.h:346-351 | refilling the empty trove loses and invents no random bit |
| `SkipRandom.SoonLands` | ThirdParty/Minizip/skipset.h:346-357 | a nonzero random word among the first 511 ends the coin flips before level 16384 |
| `SkipRandom.NonzeroWords` | ThirdParty/Minizip/skipset.h:346-357 | one nonzero random word for every insertion is enough for a whole run |
| `Skipset.SkipSet.Grow` | ThirdParty/Minizip/skipset.h:196-210 | growing keeps the old links, fills the new ones with the head when asked, changes nothing when the allocation fails, and keeps the count of live blocks exact |
| `Skipset.SkipSet.RoomIs` | ThirdParty/Minizip/skipset.h:196-210 | the size of a grown array is the smallest one that is enough among its old size, or one, times the powers of two |
| `Skipset.SkipSet.NewNode` | ThirdParty/Minizip/skipset.h:213-219 | one more live block, or nothing changed when the allocation fails |
| `Skipset.SkipSet.NextLevel` | ThirdParty/Minizip/skipset.h:346-357 | the level is the number of zero bits before the first one bit of the random stream, and exactly those bits are consumed |
| `Skipset.SkipSet.WalkRight` | ThirdParty/Minizip/skipset.h:322-325 | the walk on one level ends at the last node of that level before the key |
| `Skipset.SkipSet.Descend` | ThirdParty/Minizip/skipset.h:317-326 | path holds, on every level, the last node before the key |
| `Skipset.SkipSet.Found` | ThirdParty/Minizip/skipset.h:311-331 | returns 1 exactly for members; the keys and all invariants stay, also when growing path fails |
| `Skipset.SkipSet.Deepen` | ThirdParty/Minizip/skipset.h:358-363 | raising the depth keeps every link and makes the new levels empty |
| `Skipset.SkipSet.MakeNode` | ThirdParty/Minizip/skipset.h:367-369 | the node under construction, and what an allocation failure leaves of it |
| `Skipset.SkipSet.Splice` | ThirdParty/Minizip/skipset.h:370-374 | the list with the new node on all its levels, and nothing else changed |
| `Skipset.SkipSet.Insert` | ThirdParty/Minizip/skipset.h:334-376 | returns 1 exactly when the key is there; otherwise the key is inserted at its rank with a level given by the random bits; a failed call leaves keys and heights as they were; the requests for memory stop at the first that is refused, and a node is left under construction exactly when that is the one for its links, also when path and head grow; whether an earlier node is lost |
| `Skipset.SkipSet.Release` | ThirdParty/Minizip/skipset.h:186-189 | both blocks of a node are live when they are freed |
| `Skipset.SkipSet.Sweep` | ThirdParty/Minizip/skipset.h:222-231 | every key is dropped once, in order, and every list node freed once |
| `Skipset.SkipSet.Start` | ThirdParty/Minizip/skipset.h:239-252 | an empty valid set, or a state that set_end() can clean up |
| `Skipset.SkipSet.End` | ThirdParty/Minizip/skipset.h:284-307 | after any operation, failed or not, everything reachable from the set is freed exactly once, the node under construction included, and every key is dropped |
| `Skipset.Step` | ThirdParty/Minizip/skipset.h:311-376 | one call keeps all invariants and answers membership; it leaves its node exactly when, as seen before the call, the key is new and just the last request of the insertion will be refused |
| `Skipset.Run` | ThirdParty/Minizip/skipset.h:311-376 | the same for any sequence of calls on one stream of random words, under any pattern of failing allocations |
| `Skipset.RunIsASet` | ThirdParty/Minizip/skipset.h:311-376 | over every run from the empty set the keys are strictly sorted, and a key is a member exactly when some insertion of it returned 0 |
| `Skipset.Lifetime` | ThirdParty/Minizip/skipset.h:233-307 | start, any calls, end: as many nodes stay allocated as calls lost one, so none exactly when no insertion linked or left a node while an earlier one was under construction; every key is dropped once, the one of a node left at the end included |
| `Skipset.NothingLost` | ThirdParty/Minizip/skipset.h:233-239 | calls that stop at the first failure lose nothing |
| `Skipset.LossAfterRecovery` | ThirdParty/Minizip/skipset.h:365-374 | going on after a cut-short set_insert(): its node stays allocated after set_end() exactly when the next call is an insertion that returns 0 or, by the refusals, leaves a node of its own |
| `Skipset.LeaveOne` | ThirdParty/Minizip/skipset.h:365-374 | a run that gets there: the sixth allocation is refused, and the first insertion leaves its node |
| `Skipset.LossHappens` | ThirdParty/Minizip/skipset.h:284-307 | the insertion after that one succeeds, and one node stays allocated behind set_end() |
| `CliEscape.AddEscapedCharacters` | ThirdParty/CLI11/CLI11.hpp:876-889 | the loop computes the character-wise escaping |
| `CliEscape.ReadHex` | ThirdParty/CLI11/CLI11.hpp:951-959 | the loop accepts exactly hexadecimal digits and computes their value |
| `CliEscape.RemoveEscapedCharacters` | ThirdParty/CLI11/CLI11.hpp:931-989 | the loop computes the unescaping, with each error case |
| `CliEscape.RemoveUndoesAdd` | ThirdParty/CLI11/CLI11.hpp:876-989 | removing undoes adding on every string |
| `CliTables.EscapeTable` | ThirdParty/CLI11/CLI11.hpp:876-889 | the seven characters that are escaped, each with its letter; every other one stays |
| `CliTables.TakenAs` | ThirdParty/CLI11/CLI11.hpp:931-989 | what each of the eight one-letter escapes stands for |
| `CliTables.EscapeErrors` | ThirdParty/CLI11/CLI11.hpp:931-989 | the error of every escape that is cut short, has no hexadecimal digits where it needs them, or is not known |
| `CliTables.HexTable` | ThirdParty/CLI11/CLI11.hpp:891-903 | the value of every hexadecimal digit of both cases, and no other character has one |
| `CliTables.Classes` | ThirdParty/CLI11/CLI11.hpp:729-745 | the characters that count as white space and as printable |
| `CliTables.TrimCuts` | ThirdParty/CLI11/CLI11.hpp:729-745 | trimming cuts off white space only, and all of it, at both ends |
| `CliUtf8.CodepointIsUtf8` | ThirdParty/CLI11/CLI11.hpp:907-929 | for every scalar value the bytes pushed are its UTF-8 form by the syntax of section 4 of RFC 3629 |
| `CliUtf8.EscapesDecode` | ThirdParty/CLI11/CLI11.hpp:944-978 | a text of \u and \U escapes is accepted exactly when it names no surrogate; the output is well-formed UTF-8 of the values below 0x110000, larger ones vanish without an error |
| `CliUtf8.KeptAll` | ThirdParty/CLI11/CLI11.hpp:944-978 | nothing vanishes exactly when every value is below 0x110000, and then all values come out in order |
| `CliUtf8.FirstToVanish` | ThirdParty/CLI11/CLI11.hpp:907-929 | a text that vanishes: \U00110000 is accepted and gives nothing |
| `CliBinary.BinaryEscapeString` | ThirdParty/CLI11/CLI11.hpp:1109-1149 | the two loops compute the escaped form |
| `CliBinary.ReplaceQuotes` | ThirdParty/CLI11/CLI11.hpp:1136-1142 | replacing quotes one by one ends with every quote replaced |
| `CliBinary.ExtractBinaryString` | ThirdParty/CLI11/CLI11.hpp:1159-1196 | the loop computes the extracted text |
| `CliBinary.BodyUnchanged` | ThirdParty/CLI11/CLI11.hpp:1109-1133 | escaping changes a string exactly when it holds a non-printable character or a backslash before x or X |
| `CliBinary.BinaryRoundTrip` | ThirdParty/CLI11/CLI11.hpp:1109-1196 | extraction gives back every string that needs escaping, the wrapped form has no inner single quote, and other strings stay as they are |
| `CliBinary.BareRoundTrip` | ThirdParty/CLI11/CLI11.hpp:1159-1196 | the form without its single quotes is extracted to the same bytes |
| `CliBinary.ReadsBothCases` | ThirdParty/CLI11/CLI11.hpp:1159-1196 | both cases of x and of the digits are read |
| `CliTables.HexPairIs` | ThirdParty/CLI11/CLI11.hpp:1109-1133 | the two digits that a byte is written with: lower case, the high one first |
| `CliSplit.CloseStringQuote` | ThirdParty/CLI11/CLI11.hpp:991-1003 | the loop computes the closing position, escapes skipped |
| `CliSplit.FindCloser` | ThirdParty/CLI11/CLI11.hpp:1010-1055 | the loop over nested brackets computes the closing position |
| `CliBrackets.BracketCloses` | ThirdParty/CLI11/CLI11.hpp:1010-1055 | in balanced text, to any depth and with quoted texts that hold brackets, an opening bracket closes at its own partner, whatever follows |
| `CliBrackets.BracketIsElement` | ThirdParty/CLI11/CLI11.hpp:1057-1095 | and a text in brackets is split off as one element |
| `CliSplit.SplitUp` | ThirdParty/CLI11/CLI11.hpp:1057-1095 | the loop computes the items |
| `CliSplit.CloseValue` | ThirdParty/CLI11/CLI11.hpp:991-1055 | the quote that opens a printed value closes at its end, whatever follows |
| `CliSplit.SplitValue` | ThirdParty/CLI11/CLI11.hpp:1057-1095 | a printed value is split off exactly, with the comma behind it |
| `CliConfig.ConvertArg` | ThirdParty/CLI11/CLI11.hpp:10515-10572 | the branches compute the printed form of one value |
| `CliTables.PrintedAsIs` | ThirdParty/CLI11/CLI11.hpp:10515-10572 | which values are printed as they are: words, numbers, and radix numbers by their letters |
| `CliTables.PrintedOne` | ThirdParty/CLI11/CLI11.hpp:10515-10572 | how any other single character is printed |
| `CliTables.PrintedLong` | ThirdParty/CLI11/CLI11.hpp:10515-10572 | how any other text is printed: binary, quoted, between triple quotes behind 100 characters, or escaped |
| `CliConfig.JoinForIni` | ThirdParty/CLI11/CLI11.hpp:10574-10600 | the loop computes the printed entry |
| `CliConfig.HandleSecondaryArray` | ThirdParty/CLI11/CLI11.hpp:1210-1220 | the loop computes the protected form of a bracketed text |
| `CliConfig.ProcessQuotedString` | ThirdParty/CLI11/CLI11.hpp:1222-1245 | the branches compute the value behind the quotes, with the escape errors |
| `CliConfig.HalveLoop` | ThirdParty/CLI11/CLI11.hpp:6627-6639 | the loop accepts exactly doubled texts and halves them |
| `CliConfig.AddResultTo` | ThirdParty/CLI11/CLI11.hpp:6622-6680 | the recursion appends the results, and counts them |
| `CliConfig.AddProtected` | ThirdParty/CLI11/CLI11.hpp:6622-6646 | adding a text in its protected form adds exactly that one text, also when it looks like an array |
| `CliConfig.ReadEach` | ThirdParty/CLI11/CLI11.hpp:10905-10916 | taking the quotes off all items and adding them, with the first escape error |
| `CliConfig.ReadEntry` | ThirdParty/CLI11/CLI11.hpp:10884-10911 | splitting, taking the quotes off and adding, in the order of the code; what comes out of each form of an entry is stated by the next eight rows |
| `CliRoundTrip.ListIsSplit` | ThirdParty/CLI11/CLI11.hpp:10884-10897 | values with commas between them come out as that list: in brackets, without brackets, and with the closing bracket missing |
| `CliRoundTrip.ListRoundTrip` | ThirdParty/CLI11/CLI11.hpp:10894-10895 | so a list written without brackets reads back as the values it was made of |
| `CliRoundTrip.BlanksAreSplit` | ThirdParty/CLI11/CLI11.hpp:10896-10897 | values with blanks between them come out as that list when there is no comma |
| `CliHand.MixedBlanksSplit` | ThirdParty/CLI11/CLI11.hpp:1057-1095 | and so they do with any white space between them, when one of it is a blank |
| `CliRoundTrip.SingleQuoted` | ThirdParty/CLI11/CLI11.hpp:1222-1245 | single quotes and backticks come off, and nothing inside is changed |
| `CliRoundTrip.DoubleQuoted` | ThirdParty/CLI11/CLI11.hpp:1222-1245 | double quotes come off, and the escapes inside are removed or are the error |
| `CliRoundTrip.ArrayIsSplit` | ThirdParty/CLI11/CLI11.hpp:6622-6680 | a text in brackets is added as its parts to an option of several values, and as it is otherwise |
| `CliHand.GapsGiveNothing` | ThirdParty/CLI11/CLI11.hpp:6648-6662 | empty parts of an array are left out |
| `CliMultiLine.TakeLines` | ThirdParty/CLI11/CLI11.hpp:10839-10882 | the loop over the lines of a multi-line value, line joining included |
| `CliMultiLine.ReadEntryLines` | ThirdParty/CLI11/CLI11.hpp:10806-10911 | an entry from the value part of its first line on: comments, multi-line values, arrays over several lines, as the next rows and EntryRoundTrip say |
| `CliHand.TextByHand` | ThirdParty/CLI11/CLI11.hpp:10813-10883 | a text between triple quotes on lines of their own is the lines in between, unescaped between double quotes |
| `CliHand.TextOnOneLine` | ThirdParty/CLI11/CLI11.hpp:10820-10838 | a text that closes on its first line |
| `CliHand.LinesJoin` | ThirdParty/CLI11/CLI11.hpp:10839-10882 | lines that end in a backslash are joined without it, the line break and the blanks in front of the next line |
| `CliHand.BracketsGoOn` | ThirdParty/CLI11/CLI11.hpp:10884-10888 | an array goes on with trimmed lines up to the first one that ends in a bracket, and no further |
| `CliHand.CommentedEntry` | ThirdParty/CLI11/CLI11.hpp:10809-10812 | a value with a comment behind it reads as the value |
| `CliHand.CommentedList` | ThirdParty/CLI11/CLI11.hpp:10809-10812 | so does a list in brackets, and one without brackets whose first value has no quotes and whose values hold no comment character |
| `CliHand.ListBeforeComment` | ThirdParty/CLI11/CLI11.hpp:10809-10812 | a list without brackets is whole in front of a comment if and only if that is so; a quoted first value is all that stays of its list |
| `CliRoundTrip.ValueRoundTrip` | ThirdParty/CLI11/CLI11.hpp:10515-10572 | every printed value is in one of three closed forms and reads back as its text |
| `CliRoundTrip.SplitJoined` | ThirdParty/CLI11/CLI11.hpp:1057-1095 | split_up on the comma undoes the joining of printed values |
| `CliRoundTrip.VectorRoundTrip` | ThirdParty/CLI11/CLI11.hpp:10574-10600 | every vector of two or more byte strings is read back exactly as it was |
| `CliRoundTrip.CommentSafe` | ThirdParty/CLI11/CLI11.hpp:10809-10812 | a comment character inside a printed value never cuts it, when the value is on one line |
| `CliMultiLine.LinesOfLiteral` | ThirdParty/CLI11/CLI11.hpp:10515-10572 | the lines that a value between triple quotes takes up in the file |
| `CliMultiLine.LiteralReads` | ThirdParty/CLI11/CLI11.hpp:10813-10883 | the reader gets such a text back exactly when its lines keep, and something shorter otherwise |
| `CliMultiLine.TextReads` | ThirdParty/CLI11/CLI11.hpp:1222-1245 | reading a text adds exactly that text if and only if it has no quotes of its own to lose and does not look like an array |
| `CliMultiLine.EntryRoundTrip` | ThirdParty/CLI11/CLI11.hpp:10574-10600 | every printed entry of one or more values, with any lines behind it, reads back as the values it was printed from and touches no other line, if and only if its text between triple quotes, when there is one, survives |
| `CliMultiLine.LostTexts` | ThirdParty/CLI11/CLI11.hpp:10515-10572 | two texts that do not: one begins with a line break, the other is in double quotes |
| `CliSections.CheckParentSegments` | ThirdParty/CLI11/CLI11.hpp:10627-10674 | the loops write the shortest way from the closed section to the new one |
| `CliSections.MergeEntry` | ThirdParty/CLI11/CLI11.hpp:10929-10946 | a repeated option gets its values appended, behind a separator when both sides have several values |
| `CliSections.RepeatsKeepGroups` | ThirdParty/CLI11/CLI11.hpp:10929-10946 | however often an option with several values is repeated, the separators keep its groups apart |
| `CliSections.FromConfig` | ThirdParty/CLI11/CLI11.hpp:10723-10960 | the loop over the lines computes the items; the next three rows say which options come out, the ones behind them where the markers are |
| `CliSections.OptionsComeOut` | ThirdParty/CLI11/CLI11.hpp:10723-10960 | the options of a file are those read off its lines: each in the section of the last header, with its name and values, in order; an option on the next line with the same name and section adds its values |
| `CliSections.EveryOption` | ThirdParty/CLI11/CLI11.hpp:10929-10946 | in a file without such repeats they are exactly the option lines |
| `CliSections.RepeatedOption` | ThirdParty/CLI11/CLI11.hpp:10929-10946 | an option repeated any number of times comes out once, with all its values |
| `CliSections.MergedPlain` | ThirdParty/CLI11/CLI11.hpp:10938-10945 | when the values of a repeated option are joined without a separator |
| `CliSections.WalkTransition` | ThirdParty/CLI11/CLI11.hpp:10627-10674 | the markers between two sections are a legal walk of the section tree from the one to the other |
| `CliSections.TransitionIsShortest` | ThirdParty/CLI11/CLI11.hpp:10639-10661 | only levels outside the shared proper prefix are closed, and every level is closed or opened once |
| `CliSections.LinesAgree` | ThirdParty/CLI11/CLI11.hpp:10749-10773 | at every line the open sections are the nonempty prefixes of the current section |
| `CliSections.FileIsBracketed` | ThirdParty/CLI11/CLI11.hpp:10948-10958 | the items of a file are a complete, well-bracketed walk exactly when the file is tidy: behind every [default] that follows a section of two or more segments the next line other than [default] is a section header |
| `CliSections.NoDefaultIsBracketed` | ThirdParty/CLI11/CLI11.hpp:10749-10773 | the items of a file without [default] are always a complete, well-bracketed walk |
| `CliSections.DefaultLeavesParentOpen` | ThirdParty/CLI11/CLI11.hpp:10749-10763 | [a.b] followed by [default] leaves section a open at the end of the file |
| `CliMultiply.CheckIsExact` | ThirdParty/CLI11/CLI11.hpp:4199-4211 | overflowCheck is true exactly when the product leaves the range of the type |
| `CliMultiply.CheckedMultiply` | ThirdParty/CLI11/CLI11.hpp:4214-4227 | succeeds exactly when the product fits, holds the product then, and leaves the argument alone otherwise, for every signed and unsigned width |
| `ZipFormat.ShortAt` | ThirdParty/Minizip/mztools.c:16-31 | a 16-bit field that was written reads back, for READ_16 and WRITE_16 |
| `ZipFormat.RowLies` | ThirdParty/Minizip/mztools.c:16-31 | fields that were read write the same bytes again |
| `ZipRepair.FoundEntry` | ThirdParty/Minizip/mztools.c:46-142 | what the loop copies is the entry found in the file, byte for byte, and it is within the limits of the code |
| `ZipRepair.TakesEntry` | ThirdParty/Minizip/mztools.c:46-142 | every entry within the limits is taken as it is if there is memory for its data, with as much data as its sizes say: the compressed size, or the other one when it is 0, or none when that does not fit an int |
| `ZipRepair.EntryErrors` | ThirdParty/Minizip/mztools.c:63-142 | an empty name is a stream error, and nothing is refused that is within the limits, except for memory |
| `ZipRepair.ReadEntry` | ThirdParty/Minizip/mztools.c:63-142 | header, name, extra field and data of one entry, with each failure; TakesEntry and EntryErrors say what is taken |
| `ZipRepair.UnzRepair` | ThirdParty/Minizip/mztools.c:33-294 | the loop with its counters and two outputs computes the rebuilt file, for every pattern of failing mallocs; RepairTakesAll and RepairKeepsEntries say which entries it has |
| `ZipRepair.RepairKeepsEntries` | ThirdParty/Minizip/mztools.c:46-266 | on any input, a repair that succeeds keeps exactly the recoverable entries at the front of the file and gives them a directory |
| `ZipRepair.RepairTakesAll` | ThirdParty/Minizip/mztools.c:46-266 | whatever entries within the limits stand at the front of a file, and whatever follows: they are recovered, all of them, exactly when malloc succeeds once for each entry with data |
| `ZipRepair.RepairTwice` | ThirdParty/Minizip/mztools.c:33-294 | repairing a repaired archive changes nothing |
| `ZipRepair.TotalIs` | ThirdParty/Minizip/mztools.c:124-131 | the reported size is that of all recovered data |
| `ZipSearch.ScanBuffer` | ThirdParty/Minizip/unzip.c:365-371 | the scan finds the last mark of a window |
| `ZipSearch.Search` | ThirdParty/Minizip/unzip.c:325-378 | the overlapping windows find the greatest mark in the last 65535 bytes, or none, for every file longer than 4 bytes |
| `ZipSearch.SearchReaches` | ThirdParty/Minizip/unzip.c:325-378 | a mark is found if and only if it starts within the last 65535 bytes of the file |
| `ZipNames.StrCmpCaseNoSensitive` | ThirdParty/Minizip/unzip.c:261-279 | the loop computes the comparison |
| `ZipNames.CompareIsLex` | ThirdParty/Minizip/unzip.c:261-311 | the comparison is lexicographic order on folded names, and 0 means equal folded names |
| `ZipNames.ComparesEqual` | ThirdParty/Minizip/unzip.c:261-311 | 0 is returned exactly for names that are equal letter by letter, where a to z and A to Z are the same unless the comparison is case sensitive, and nothing else is |
| `ZipNames.ByteOrder` | ThirdParty/Minizip/unzip.c:261-311 | the order of single bytes: signed where case is ignored, unsigned otherwise |
| `ZipInfo.ReadZip64` | ThirdParty/Minizip/unzip.c:925-953 | only saturated fields are read from a Zip64 block, and those that the file does not hold read as 0 |
| `ZipInfo.ReadBlocks` | ThirdParty/Minizip/unzip.c:900-961 | the loop over the extra blocks |
| `ZipInfo.Zip64Blocks` | ThirdParty/Minizip/unzip.c:913-961 | a well-formed Zip64 block (section 4.5.3) replaces exactly the saturated fields, wherever it stands |
| `ZipInfo.CompleteExtra` | ThirdParty/Minizip/unzip.c:766-999 | in a complete header a well-formed Zip64 block replaces the saturated fields; without one nothing is replaced |
| `ZipInfo.GetInfo` | ThirdParty/Minizip/unzip.c:766-999 | for every file, position and combination of buffers: only the magic has to be there, and fields cut by the end of the file read as 0; a buffer makes a difference exactly when the file does not hold all the bytes it is to receive; each buffer holds the right part of its field, the comment from where the extra blocks end |
| `ZipRecords.HeaderReadsBack` | ThirdParty/Minizip/unzip.c:762-905 | a central header of the format (section 4.3.12), with any values, reads back field by field |
| `ZipReader.SearchCentralDir64` | ThirdParty/Minizip/unzip.c:385-479 | the Zip64 end record a locator leads to, or none |
| `ZipRecords.LocatorReads` | ThirdParty/Minizip/unzip.c:430-479 | a Zip64 locator (section 4.3.15) is taken exactly when it is for one disk and leads to a Zip64 end record |
| `ZipRecords.End64Reads` | ThirdParty/Minizip/unzip.c:542-585 | a Zip64 end record (section 4.3.14) is taken exactly when it is for one disk, with its numbers |
| `ZipRecords.Zip64Opens` | ThirdParty/Minizip/unzip.c:532-641 | a file with both opens by that record, whatever else is in it |
| `ZipRecords.EndReads` | ThirdParty/Minizip/unzip.c:588-641 | an end record (section 4.3.16) is taken exactly when it is for one disk, with its numbers |
| `ZipReader.OpenEnd` | ThirdParty/Minizip/unzip.c:588-641 | the reads of the end record, with zeros behind the end of the file |
| `ZipReader.NextOnDirectory` | ThirdParty/Minizip/unzip.c:1080-1101 | on a well-formed directory the cursor goes through the entries in order and then stops |
| `ZipRecords.NextHeader` | ThirdParty/Minizip/unzip.c:1080-1101 | the next header is looked for behind name, extra field and comment of the current one, and read |
| `ZipReader.WalkCounts` | ThirdParty/Minizip/unzip.c:1060-1101 | on any directory a walk of n steps says "end of list" exactly when n + 1 entries are announced, other than 0xffff; it never passes the announced number, and otherwise only a missing magic ends it, with BADZIPFILE |
| `ZipReader.UnzFile.GoToFirstFile` | ThirdParty/Minizip/unzip.c:1060-1078 | the cursor on the first header |
| `ZipReader.UnzFile.GoToNextFile` | ThirdParty/Minizip/unzip.c:1080-1101 | the cursor one header further, or the end of the list |
| `ZipReader.BufferHoldsName` | ThirdParty/Minizip/unzip.c:1145-1153 | the 256-byte name buffer compares equal to a shorter name exactly when the entry has that name |
| `ZipReader.SameNameIs` | ThirdParty/Minizip/unzip.c:1145-1153 | which names are the same, letter by letter |
| `ZipReader.UnzFile.LocateFile` | ThirdParty/Minizip/unzip.c:1112-1166 | selects the first entry of that name, or leaves the cursor as it was and says end of list |
| `ZipReader.UnzFile.CheckCoherency` | ThirdParty/Minizip/unzip.c:1254-1334 | succeeds exactly when local and central header agree, where fields of a cut local header read as 0; CoherentExactly says when that is |
| `ZipRecords.CoherentExactly` | ThirdParty/Minizip/unzip.c:1254-1334 | a local header with any values agrees with a central one exactly when methods and name sizes are equal, the method is 0, 8 or 12, and the CRC and each size agree, unless flag bit 3 is set or the size is all ones |
| `ZipRecover.LocalAgrees` | ThirdParty/Minizip/unzip.c:1254-1334 | the same for the local header of one entry and the central one of another |
| `ZipReader.Open` | ThirdParty/Minizip/unzip.c:490-667 | an archive opens exactly when an acceptable end record is found, which may be cut by the end of the file: what is missing reads as 0 |
| `ZipRecover.CentralReadBack` | ThirdParty/Minizip/mztools.c:144-208 | a directory header that repairing writes is read back as written |
| `ZipRecover.LocalCoherent` | ThirdParty/Minizip/unzip.c:1254-1334 | a recovered entry passes the coherency check exactly when its method is 0, 8 or 12 |
| `ZipRecover.LastIsEnd` | ThirdParty/Minizip/mztools.c:218-249 | the record that the reader finds behind the greatest mark: the written one without a second mark, an empty one when the position of the directory spells the mark, and none otherwise |
| `ZipRecover.ArchiveOpens` | ThirdParty/Minizip/unzip.c:490-667 | without a Zip64 end record, a rebuilt archive opens as it is without a stray mark, as an empty archive when the mark is the position of the directory, and not at all otherwise |
| `ZipRecover.StrayAccepted` | ThirdParty/Minizip/unzip.c:588-641 | of the seven places where a second mark can stand the reader accepts exactly the position of the directory |
| `ZipWitness.CutRecords` | ThirdParty/Minizip/unzip.c:197-257 | five bytes that open as an archive, and two headers of four bytes that are taken: a short read is UNZ_EOF, which is UNZ_OK |
| `ZipWitness.StrayMarkEmpties` | ThirdParty/Minizip/mztools.c:218-249 | one stored entry of 101010225 bytes, as it should be, gives an archive that opens with no entries |
| `ZipWitness.StrayMarkRefuses` | ThirdParty/Minizip/mztools.c:218-249 | 19280 stored entries, as they should be, give an archive that does not open |
| `ZipWitness.FullDirectory` | ThirdParty/Minizip/unzip.c:1080-1101 | an archive of 65535 entries opens, and the walk over it ends with BADZIPFILE |
| `ZipRecover.WalkAll` | ThirdParty/Minizip/unzip.c:1060-1101 | first and next go through all entries of the archive and then end |
| `ZipRecover.WalkEnd` | ThirdParty/Minizip/unzip.c:1080-1092 | behind the last entry the walk ends by the announced number, or with BADZIPFILE when there are 0xffff entries or more |
| `ZipRecover.RepairThenRead` | ThirdParty/Minizip/mztools.c:33-294 | for any damaged file: which end record the reader finds in what repairing writes, and that the walk shows exactly the recovered entries, each pointing to its own local header |
| `ZipRecover.RebuiltIsWellFormed` | ThirdParty/Minizip/unzip.c:1112-1166 | a rebuilt archive meets the hypotheses of unzLocateFile(), under the original names |
| `ZipRecover.RecoveredContent` | ThirdParty/Minizip/unzip.c:1549-1750 | a raw read of a recovered entry of any method, and a read of a stored one, delivers its data; for a compressed size of 0 both sizes are 0 |
| `ZipRead.Crc32Concat` | ThirdParty/Minizip/unzip.c:1648-1650 | the CRC of consecutive deliveries is the CRC of all of them |
| `ZipRead.Reader.Decrypt` | ThirdParty/Minizip/unzip.c:1607-1616 | a refill is decrypted in place and the keys go on |
| `ZipRead.Reader.Refill` | ThirdParty/Minizip/unzip.c:1586-1626 | a refill moves bytes from the file to the buffer, and what is still to be delivered stays the same |
| `ZipRead.Reader.Deliver` | ThirdParty/Minizip/unzip.c:1636-1657 | the copied bytes are the next ones, and every counter accounts for them |
| `ZipRead.Reader.ReadCurrentFile` | ThirdParty/Minizip/unzip.c:1549-1750 | a call hands out the next bytes, as many as are wanted and left; delivered, buffered and unread bytes always sum up to the compressed size; the result is their number as an int; it fails only when the file is too short |
| `ZipRead.AnyReads` | ThirdParty/Minizip/unzip.c:1549-1750 | what any sequence of lengths hands out is the front of what was left, as long as their sum |
| `ZipRead.ReadPieces` | ThirdParty/Minizip/unzip.c:1549-1750 | calls with any lengths on a complete file, raw or not: each hands out exactly what the ones before it left, and together they give the front of the content |
| `ZipRead.Reader.CloseCurrentFile` | ThirdParty/Minizip/unzip.c:1867-1905 | a CRC error exactly when everything was read, not raw, and the CRC of the delivered bytes differs |
| `ZipRead.OpenCurrentFile` | ThirdParty/Minizip/unzip.c:1340-1508 | the error cases, and otherwise a reader for the data behind the local header |
| `ZipRead.Extract` | ThirdParty/Minizip/miniunz.c:435-470 | the extraction loop gives the content for every buffer size, and the closing result is about exactly that output |
| `ZipExtract.NamesFile` | ThirdParty/Minizip/miniunz.c:332-340 | the loop tells names of files from names of directories: up to the first NUL the name is not empty and does not end in / or \ |
| `ZipExtract.ExtractCurrent` | ThirdParty/Minizip/miniunz.c:306-474 | a directory name makes a directory and nothing is read; a stored file gives its data, and CRC_ERROR exactly when all of it was read and its CRC is wrong |
| `ZipExtract.ExtractRaw` | ThirdParty/Minizip/miniunz.c:435-470 | a raw read of an entry of a rebuilt archive delivers its data, whatever its method is |
| `ZipExtract.FileNames` | ThirdParty/Minizip/miniunz.c:332-340 | which names are names of files |
| `ZipExtract.ExtractAll` | ThirdParty/Minizip/miniunz.c:477-509 | the loop over the archive gives the output of every entry in order, up to the first that fails |
| `ZipExtract.OpenAndExtract` | ThirdParty/Minizip/miniunz.c:477-509 | a rebuilt archive of stored entries extracts to the data of its entries, or to nothing without an error, or does not open, by its stray mark |
| `ZipExtract.RepairAndExtract` | ThirdParty/Minizip/mztools.c:33-294 | from any damaged file whose recovered entries are stored to the outputs: the data of the entries as they stand in the damaged file, unless a stray mark loses them |
| `ZipExtract.WhatComesOut` | ThirdParty/Minizip/miniunz.c:306-474 | every file whose output was opened holds the data of its entry with the CRC of its header, unless it is the last one and its CRC is the error |
| `ZipRead.EncryptedEntry` | ThirdParty/Minizip/unzip.c:1484-1503 | an encrypted entry is opened as its plain bytes and 12 bytes from behind the entry |
| `ZipRead.ExtractWithPassword` | ThirdParty/Minizip/unzip.c:1484-1503 | with its password an encrypted entry extracts to exactly its plain bytes, and CRC_ERROR exactly for a wrong CRC; a raw read delivers 12 bytes more |
| `ZipExtract.SealedInArchive` | ThirdParty/Minizip/unzip.c:1484-1503 | every archive holds its encrypted entries as ExtractWithPassword needs them |
| `ZipExtract.OpenAndDecrypt` | ThirdParty/Minizip/unzip.c:1484-1503 | opening an archive and reading its encrypted first entry gives its plain bytes |
| `ZipCrypt.UpdateKeys` | ThirdParty/Minizip/crypt.h:45-55 | the keys change in place as the update says, which FirstKeys gives in numbers and UpdateAgrees compares with section 6.1 |
| `ZipCrypt.FirstKeys` | ThirdParty/Minizip/crypt.h:45-55 | the first update of the keys in numbers, with the factor 134775813 |
| `ZipCrypt.XorBits` | ThirdParty/Minizip/crypt.h:27-55 | the exclusive or is the one of every bit |
| `ZipCrypt.OrBits` | ThirdParty/Minizip/crypt.h:36-39 | the inclusive or is the one of every bit |
| `ZipCrypt.OrTwoIs` | ThirdParty/Minizip/crypt.h:36-39 | the code of the stream byte sets bit 1, as section 6.1 does |
| `ZipCrypt.FlipLowestIs` | ThirdParty/Minizip/crypt.h:36-39 | and flips bit 0 |
| `ZipCrypt.InitKeys` | ThirdParty/Minizip/crypt.h:61-69 | the password up to its NUL goes into the start keys |
| `ZipCrypt.UpdateAgrees` | ThirdParty/Minizip/crypt.h:45-55 | one update of the unmasked keys is the 32-bit update: two keys stay below 2^32, the other one agrees in its low half |
| `ZipCrypt.SameCipher` | ThirdParty/Minizip/crypt.h:27-76 | for every password and input the unmasked 64-bit keys give the cipher of section 6.1 of APPNOTE.TXT, written with its own numbers and bit operations, encrypting and decrypting |
| `ZipCrypt.KeysOverflow` | ThirdParty/Minizip/crypt.h:45-55 | the second key does leave 32 bits, with the first character |
| `ZipCrypt.DecodeEncode` | ThirdParty/Minizip/crypt.h:71-76 | decrypting undoes encrypting |
| `ZipCrypt.EncodeDecode` | ThirdParty/Minizip/crypt.h:71-76 | encrypting undoes decrypting |
| `ZipCrypt.EncodeAt` | ThirdParty/Minizip/crypt.h:74-76 | each byte is xored with the stream byte of the keys that absorbed the plain bytes before it |
| `ZipCrypt.DecodeConcat` | ThirdParty/Minizip/crypt.h:71-72 | decrypting may stop and go on anywhere, because the keys carry over |
| `ZipCrypt.ZDecode` | ThirdParty/Minizip/crypt.h:71-72 | both sides end in the keys that absorbed the plain byte |
| `ZipCrypt.ZEncode` | ThirdParty/Minizip/crypt.h:74-75 | both sides end in the keys that absorbed the plain byte |
| `ZipCrypt.CryptHead` | ThirdParty/Minizip/crypt.h:85-123 | the twelve bytes written, the keys left, and nothing when the buffer is too small |
| `ZipCrypt.HeadDecodes` | ThirdParty/Minizip/crypt.h:85-123 | with the same password the header decodes to the hidden bytes, which decode to the random ones, and the two high CRC bytes |
| `GridColumns.FreeName` | python/griddyn_python.cpp:1231-1235 | the suffix loop ends, and the name is the first candidate that is free |
| `GridColumns.ColumnNames` | python/griddyn_python.cpp:1226-1236 | every column gets the first free name behind the columns before it |
| `GridColumns.NamesDiffer` | python/griddyn_python.cpp:1226-1236 | the names differ from one another and from "time" |
| `GridColumns.DecimalIsNumber` | python/griddyn_python.cpp:1226-1236 | the digits in a name, weighted by powers of ten, are the number |
| `GridColumns.FourNames` | python/griddyn_python.cpp:1226-1236 | the names of four columns a, a, an empty one and time |
| `GridColumns.MakeRow` | python/griddyn_python.cpp:1239-1243 | the loop fills the row |
| `GridColumns.RowsKeepAll` | python/griddyn_python.cpp:1238-1245 | when no field name holds a NUL each row keeps the time and the value of every column |
| `GridColumns.RowSize` | python/griddyn_python.cpp:1238-1245 | a row has one value per column exactly when the names cut at their first NUL differ |
| `GridColumns.LastCounts` | python/griddyn_python.cpp:1239-1243 | of columns with the same key the last one gives the value |
| `GridColumns.NulLosesValue` | python/griddyn_python.cpp:1242 | two field names that differ behind a NUL share a key, and a value is lost |
| `GridReferences.StepKeeps` | python/griddyn_python.cpp:104-145 | every event keeps the sharing counts exact and the addresses of live simulations distinct |
| `GridReferences.GetIsIdentity` | python/griddyn_python.cpp:117-128 | over every run get() succeeds exactly when the runner holds the instance of the acquisition |
| `GridReferences.GetUntilReplaced` | python/griddyn_python.cpp:117-128 | over every run get() succeeds exactly until the runner loses its instance or gets another one, at whatever address |
| `GridReferences.AddressAloneIsFooled` | python/griddyn_python.cpp:117-128 | without the shared ownership a reused address would be taken for the old simulation |
| `GridLifecycle.HistoryStep` | python/griddyn_python.cpp:1700-1748 | what one more load call does to the history of loads |
| `GridLifecycle.PySimulation.LoadFile` | python/griddyn_python.cpp:1700-1717 | load(): its errors, and the flags as the history says |
| `GridLifecycle.PySimulation.LoadByRunner` | python/griddyn_python.cpp:1719-1748 | loadFromString() and loadFromArgs() likewise |
| `GridLifecycle.PySimulation.Reset` | python/griddyn_python.cpp:1750-1765 | reset reaches the runner exactly when the only successful load came from arguments or a string and nothing was loaded over it, and this is no optimization simulation |
| `GridLifecycle.PySimulation.PrepareOpf` | python/griddyn_python.cpp:1413-1461 | the first OPF run fixes the optimizer, and later ones have to name it |

## Left out

- Skipset.SkipSet.NextLevel: random streams without a one bit before level 16384 (array sizes are stored in 16 bits there); PCG32 itself is not modelled.
- Skipset.SkipSet.Insert: the same, for keys that are not there yet.
- Skipset.Step: the same.
- Skipset.Run: the same, for every insertion of the run; one nonzero word for each insertion is enough (SkipRandom.NonzeroWords).
- Skipset.Lifetime: the same. The memory counter of SET_TRACK is not modelled.
- Skipset.SkipSet.Grow: the array `right` of a node is a sequence field of the node; realloc moving a block is not visible.
- CliEscape.AddEscapedCharacters: here and in the other text modules characters are bytes of the C locale; a C++ string is a Dafny string of characters below 256.
- CliMultiLine.EntryRoundTrip: no round trip covers other quote, array or separator characters or an option with a delimiter.
- CliMultiLine.ReadEntryLines: starts from the value part of a line; finding the `=` sign in it (behind white space, quotes or comments), environment variables and casts to numbers are not part of this model.
- CliSections.FromConfig: section names arrive as lists of segments; reading them from a header line, array-of-tables indexes, the layer limit, duplicate-field search and the multiline flag of an item are not modelled, and option names are not `++` or `--`.
- ZipRepair.UnzRepair: failing writes, a missing file, and what is in the output file after an error; int counters that pass two gigabytes (the later results ask for less). The directory is collected in a value instead of a temporary file.
- ZipRecover.RepairThenRead: asks for extra fields made of well-formed blocks without a Zip64 block; an archive whose tail holds a Zip64 locator that leads to a Zip64 end record is read from there, which is not followed.
- ZipReader.Open: malloc failures, files that cannot be seeked or fail to be read before their end, archives of several disks, and files of 2^62 bytes and more.
- ZipRead.Reader.ReadCurrentFile: the inflate and bzip2 branches. A caller's buffer is a different array from the internal one.
- ZipRead.OpenCurrentFile: malloc failures, the compression level, and closing an entry that is still open; an unknown method cannot pass the coherency check.
- ZipExtract.ExtractCurrent: the names of the output files, the question before overwriting and failing writes; whether the output file gets opened is a parameter. Entries are stored, with both sizes given.
- ZipRead.ExtractWithPassword: asks for 12 more bytes behind the entry, as every archive with a directory has.
- ZipCrypt.CryptHead: the calls of rand() are an argument.
- GridReferences: GriddynRunner is not part of this model; the runner gets and gives up simulations at will.
- GridLifecycle.PySimulation.PrepareOpf: stops before the solve; the simulation has the type the binding was created with.
- Area and relay traversals, normalizeIndex, output types and the getters of the binding: they would only add easy members.
- unzGetLocalExtrafield, unzGetFilePos, unzGoToFilePos, comments and dates of the ZIP reader: they would only add easy members.
