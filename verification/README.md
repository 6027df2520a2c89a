# Verified model of a C program framework

This project models six components of a C framework in Dafny and proves what they keep over whole runs. Imperative C
becomes classes, arrays and loops proved against specification functions; concurrent C becomes step systems whose steps
are the stretches between two semaphore operations.

| Files | Component |
|---|---|
| `IniText`, `IniModel`, `IniLoad` | the INI file format: classification and parsing of a line, loading of a file |
| `IniRewrite`, `IniEdit`, `IniTarget`, `IniSquare`, `IniDb` | the line-by-line rewrites, what re-reading a rewritten file yields, and the index as a nested map |
| `IniDelete`, `IniGuard`, `IniAdded`, `IniExamples` | what a deletion returns and leaves behind, when an operation leaves file and index agreeing, and files on which one does not |
| `IniHeap`, `IniSpace`, `IniStore`, `IniSession` | the slot arrays with their linked lists, when they are full, the public operations on them, and whole runs of these |
| `IniPool` | the two-half string pool and its copying compaction |
| `NgxPool` | the block pool allocator |
| `EsRing` | the four-stage request ring |
| `JobRing` | the thread pool's job ring |
| `Checksum`, `HostRange`, `ResultTable` | the port scanner's checksum, address enumeration and result table |
| `FtpListing` | the reassembly of an FTP listing |
| `Wrappers` | the option type |

## Where the code does not do what one would expect

Each of these is proved, with the exact condition under which the code does meet the expectation and with an input on
which it does not.

- The pool's flip can report INIFILE_MEMORY_POOL_ERROR: the loop over files moves on only past an unused file
  (`v2.0.0/inifile.c:197-276`), so file 0 is copied twice and file 1 not at all. It fails exactly when file 0 is in
  use and twice its strings do not fit a half, room or no room (`IniPool.RefusedWithRoom` gets there from an empty
  pool); when it succeeds, everything linked is in the new half exactly when file 0 is unused or nothing of file 1 is
  linked (`IniPool.LeavesFileOneBehind` is a run that leaves file 1's string in the old half).
- An update changes the value of the first key of the section that is the key or goes on behind it with a blank
  (`v2.0.0/inifile.c:854-857`). File and index agree afterwards exactly when the value is clean and that first key is
  the one meant, or both values were already the new one. In `[ss]`, `a b=1`, `a=2` an update of `a` changes `a b`.
- After a key is added file and index agree exactly when the key the index parses is new in its section and the header
  line, with the pair printed behind it, loads by itself to the section with the pair the index parses. For a clean
  pair that is when the header line ends in a newline: in the file `[ss]` without one the key is lost. The key ` a`,
  with its blank, is not clean and is kept.
- Deleting one key drops the section header too (`v2.0.0/inifile.c:1089`), so the file never agrees with the index.
- The two operations on sections hand the caller's whole parameter to the rewrite (`v2.0.0/inifile.c:1435,1483`),
  which takes a key left in it for an operation on that key. Adding then writes no header; file and index agree
  exactly when no key is left, the name the printed header is parsed to is new, and that header by itself loads to
  that one section. Deleting drops the header and one pair; they agree exactly when no key is left or the section has
  no other pair in the file. The pairs left over go to the section in front.
- What `rewrite_after_delete` returns is whatever its last memcmp left (`v2.0.0/inifile.c:1078,1114`); below zero it
  throws the rewritten file away. For a section of the file it is 0 if no key is given, and otherwise exactly when, up
  to the next header, some line matches the key or none is compared with it. It is below zero exactly when none
  matches and the last line compared is greater than the key; `[ss]`, `b=1` and the key `a` is such a file.
- A section name or value is read back exactly when it is clean. The index follows the map exactly when the pair or
  name added is parsed back as it was printed: no blanks round key and value, no newline at the value's end, no `;` in
  either and no `=` in the key; a name of two characters or more and no `]`. Otherwise names and keys stay unique
  exactly when what it is parsed to is new. With a section `ab`, adding `ab]c` makes a second `ab`.
- The netmask loop is right exactly for prefixes from 16 on; below, bit 16 is cleared in the first byte, and below 8
  it comes to write outside the mask.
- `ngx_pmemalign` ignores its alignment argument: whatever is live, every place it may return is aligned as asked
  exactly when the alignment divides malloc's own 16. For any other alignment one of two neighbouring places is not.
- The request ring's `sta_` is not reliable, because the sender posts before it stores: "never been here" is reported
  exactly in the runs where the receiver looks at a slot whose sender has yet to store.
- The thread pool runs every job as it was filled in, in all its runs, exactly when it is made for one worker. With
  two or more, a worker that releases out of order lets the next round overwrite a job not yet run. A run in which
  both sides post in order is right for any number. Of two producers one can post before the other has filled its
  slot; a worker then calls what the uncleared memory of the queue held.
- A size column of 16 characters or more in an FTP listing is reported with the last size stored in the same chunk, or
  0. So every cut of a listing gives the calls of its lines one by one exactly when no line reported with such a
  column stands behind a line whose size is stored, the last one stored before it not being 0. Two lines and two cuts
  that differ are given. A size is read as printed exactly below 2 gigabytes.

## Model

| member | source | states |
|---|---|---|
| `IniText.JudgeLineKind` | v2.0.0/inifile.c:369-468 | the nested comparisons of the first positions of the five signs give the line's kind |
| `IniText.KindReadsBody` | v2.0.0/inifile.c:369-468 | the kind depends on the text before the first semicolon alone: which signs are in it, or that it is blank |
| `IniText.StrFirstConstChar` | v2.0.0/inifile.c:142-155 | the first position of a character, or none |
| `IniText.ScanName` | v2.0.0/inifile.c:583-605 | the bracketed name of a section line, refused when shorter than two characters |
| `IniText.KeyValueRoundTrip` | v2.0.0/inifile.c:497-558 | every clean pair printed with any blanks round key and equals sign, and any comment, is a key/value line that parses to that pair |
| `IniText.NameRoundTrip` | v2.0.0/inifile.c:583-616 | every clean name printed in brackets is a section line that parses to it |
| `IniText.CommentNeutral` | v2.0.0/inifile.c:369-468 | a comment put in front of the newline of an accepted line changes neither kind nor parsed content |
| `IniText.ParsedPairIsClean` | v2.0.0/inifile.c:497-558 | whatever pair the loader reads out of a key/value line is clean |
| `IniText.ParsedNameIsClean` | v2.0.0/inifile.c:583-616 | whatever name it reads out of a section line is clean |
| `IniText.HeadersExactly` | v2.0.0/inifile.c:369-468 | a line is accepted as the header of a name exactly when the name stands in brackets with no sign in front, no equals sign or semicolon behind, and then nothing or a comment |
| `IniText.HeaderReadsItsName` | v2.0.0/inifile.c:583-605 | a header of any such shape, indented or not, is read as the name in its brackets |
| `IniText.PairsExactly` | v2.0.0/inifile.c:497-558 | a line is accepted as a pair exactly when clean key and value stand round an equals sign with blanks anywhere between, and then blanks, a newline or a comment |
| `IniText.SkippedExactly` | v2.0.0/inifile.c:369-468 | a line is blank, or a note, exactly when only blanks stand in front of its newline, or of its first semicolon |
| `IniText.CleanPairsAreTheParsedOnes` | v2.0.0/inifile.c:497-558 | the clean pairs are exactly those some accepted line yields |
| `IniText.PairParsedBackExactly` | v2.0.0/inifile.c:497-558 | a pair printed with its equals sign is parsed to itself exactly when key and value are trimmed, neither has a semicolon, the key no equals sign, and the value does not end in a newline |
| `IniText.NameParsedBackExactly` | v2.0.0/inifile.c:583-605 | a bracketed name is parsed to itself exactly when it has two characters and no closing bracket |
| `IniText.KeyValueTextIsLine` | v2.0.0/inifile.c:979-988 | an added key is printed as one newline-terminated line |
| `IniModel.LoadKeepsCleanAndUnique` | v2.0.0/inifile.c:618-696 | loading keeps section names and the keys of a section unique, and everything clean |
| `IniModel.LoadGrows` | v2.0.0/inifile.c:618-696 | loading only appends: nothing but the last section of what was there changes, and that at its end |
| `IniLoad.SplitJoin` | v2.0.0/inifile.c:699-728 | short lines written one after another are read back as the same lines |
| `IniLoad.JoinSplit` | v2.0.0/inifile.c:699-728 | the lines read from any text joined give the text |
| `IniLoad.LongLineIsCut` | v2.0.0/inifile.c:720 | a line of more than 1023 characters is read in pieces of 1023 |
| `IniLoad.LoadedIsCleanAndUnique` | v2.0.0/inifile.c:699-728 | a load that succeeds has no duplicates and only clean strings, whatever the file holds |
| `IniEdit.LoadSetValue` | v2.0.0/inifile.c:618-696 | loading on after one value was replaced gives the old result with that value replaced |
| `IniEdit.LoadInsertFront` | v2.0.0/inifile.c:618-696 | loading on after a key was put in front of a section gives the old result with that key in front |
| `IniEdit.LoadPrepend` | v2.0.0/inifile.c:618-696 | loading on after a section was put in front gives the old result with the section in front |
| `IniEdit.LoadRemoveAt` | v2.0.0/inifile.c:618-696 | loading on after a section was removed gives the old result without it |
| `IniTarget.UpdateEvents` | v2.0.0/inifile.c:815-898 | replacing the value on the line an update picks loads to the same sections with the first matching value replaced |
| `IniTarget.AddEvents` | v2.0.0/inifile.c:937-1009 | a pair put behind the header loads as the first key of its section |
| `IniTarget.DeleteEvents` | v2.0.0/inifile.c:1048-1136 | dropping a header and its pairs loads to the same sections without that one |
| `IniRewrite.KeyEvent` | v2.0.0/inifile.c:839-858 | the raw comparison on a key/value line picks it exactly when its parsed key is the key or goes on behind it with a blank |
| `IniRewrite.HeaderEvent` | v2.0.0/inifile.c:822-837 | the raw comparison on a section line picks it exactly when its parsed name is the name |
| `IniRewrite.UpdateLineIsTarget` | v2.0.0/inifile.c:815-898 | the line an update rewrites is the one the loader's reading of the file picks |
| `IniRewrite.RewriteAfterUpdate` | v2.0.0/inifile.c:784-909 | the rewritten text is the old one with the target line replaced, or nothing for a file with an unreadable line before it |
| `IniRewrite.RewriteAfterAdd` | v2.0.0/inifile.c:911-1020 | the rewritten text has the pair behind the first header of the section, or the new header in front |
| `IniRewrite.RewriteAfterDelete` | v2.0.0/inifile.c:1022-1147 | the flag machine leaves out the header and the lines it passes while dropping, and what it returns is what the last memcmp left; below zero the file stays |
| `IniRewrite.RefusedExactly` | v2.0.0/inifile.c:1048-1147 | the format error is returned exactly for a file the machine cannot read through, and otherwise the sign of a comparison |
| `IniSquare.UpdateSquare` | v2.0.0/inifile.c:784-909 | the file after an update loads to the old sections with the first matching value replaced |
| `IniSquare.AddKeySquare` | v2.0.0/inifile.c:937-1009 | behind a terminated header the file after adding a clean pair loads to the old sections with it in front |
| `IniSquare.AddKeyBehindUnterminatedHeader` | v2.0.0/inifile.c:979-988 | behind an unterminated header the key is not in its section when the file is read again |
| `IniSquare.AddKeySquareExactly` | v2.0.0/inifile.c:937-1009 | the file after adding a key loads to the old sections with the pair as given in front exactly when it is clean and the header terminated |
| `IniSquare.AddSectionSquare` | v2.0.0/inifile.c:937-958 | the file after adding a section loads to the old sections with the new one in front exactly when the name is clean |
| `IniSquare.DeleteSectionSquare` | v2.0.0/inifile.c:1048-1136 | the file after deleting a section loads to the old sections without it |
| `IniDelete.DeleteKeyLosesItsSection` | v2.0.0/inifile.c:1075-1089 | deleting a key the section has returns 0, and the file, if it can be read again, has lost the whole section |
| `IniRewrite.CompareIsLess` | v2.0.0/inifile.c:1114 | memcmp is below zero exactly when the key has the smaller byte where the two first differ |
| `IniDelete.DeleteSectionCode` | v2.0.0/inifile.c:1075-1083 | deleting a section of the file with no key left in the parameter returns 0 |
| `IniDelete.DeleteCodeExactly` | v2.0.0/inifile.c:1048-1147 | with a key, the code is 0 exactly when a line up to the next header matches it or none is compared, below zero exactly when none matches and the last one compared is greater |
| `IniDelete.NoneLeftSquare` | v2.0.0/inifile.c:1081-1121 | with a key left, and no other pair in the section, the file loads to the sections without it |
| `IniDelete.SomeLeftSpills` | v2.0.0/inifile.c:1081-1121 | with a key left and another pair, that pair is in another section when the file is read again, if it can be read |
| `IniDb.GetRefinesMap` | v2.0.0/inifile.c:1185-1215 | get returns what the nested map holds |
| `IniDb.IndexRefinesMap` | v2.0.0/inifile.c:1217-1489 | every operation changes the index and reports as the nested map does, errors of the index half changing nothing, exactly when what it adds is parsed back as printed |
| `IniDb.PrintsBackExactly` | v2.0.0/inifile.c:1283-1294 | that condition in characters, for the pair or name added |
| `IniDb.CleanPrintsBack` | v2.0.0/inifile.c:1283-1294 | clean pairs and names are |
| `IniDb.AddKeyUniqueExactly` | v2.0.0/inifile.c:1283-1294 | adding a pair that is not clean keeps keys unique exactly when the key it parses to is new |
| `IniDb.AddSectionUniqueExactly` | v2.0.0/inifile.c:1461-1482 | adding a section keeps names unique exactly when the name its header is parsed to is new |
| `IniDb.TwoSectionsOfOneName` | v2.0.0/inifile.c:1461-1482 | with a section ab, adding ab]c makes a second ab |
| `IniDb.ApplyCoherent` | v2.0.0/inifile.c:1217-1489 | a guarded operation keeps the file re-readable to the index's map and does what the map does |
| `IniDb.RunCoherent` | v2.0.0/inifile.c:1217-1489 | after any run of guarded operations re-reading the file gives the map they build |
| `IniDb.LoadCoherent` | v2.0.0/inifile.c:699-728 | a freshly loaded file agrees with its index |
| `IniDb.DeleteKeyBreaksCoherence` | v2.0.0/inifile.c:1075-1089 | deleting a key never leaves file and index agreeing |
| `IniGuard.UpdateCoherentExactly` | v2.0.0/inifile.c:1217-1254 | an update leaves file and index agreeing exactly when the value is clean and the first matching key is the one meant, or nothing differs |
| `IniAdded.AddKeyCoherentExactly` | v2.0.0/inifile.c:1256-1321 | adding a key does exactly when the parsed key is new in the section and the header line with the printed pair behind it loads to the section with the parsed pair |
| `IniAdded.AddCleanKeyCoherentExactly` | v2.0.0/inifile.c:979-988 | for a clean pair, exactly when the header line ends in a newline |
| `IniGuard.AddSectionCoherentExactly` | v2.0.0/inifile.c:1441-1489 | adding a section does exactly when no key is left in the parameter, the parsed name is new, and the printed header loads to it |
| `IniGuard.DeleteSectionCoherentExactly` | v2.0.0/inifile.c:1377-1439 | deleting one does exactly when no key is left or no other pair is in the section |
| `IniExamples.FileLoads` | v2.0.0/inifile.c:699-728 | a header and clean pairs, printed one a line, load to that section |
| `IniExamples.PrintedFileLoads` | v2.0.0/inifile.c:618-728 | any sections with clean names and pairs and no duplicates, printed, load to themselves |
| `IniExamples.UpdateHitsAnotherKey` | v2.0.0/inifile.c:854-857 | a file whose index and text disagree after an update of the shorter of two keys |
| `IniExamples.AddedKeyIsNotRead` | v2.0.0/inifile.c:979-988 | the file with a header and no newline, and a key added |
| `IniExamples.BlankKeyIsKept` | v2.0.0/inifile.c:1283-1294 | a key with a blank in front, added to file and index alike |
| `IniExamples.TwoKeysOfOneName` | v2.0.0/inifile.c:1283-1294 | with a key a, adding the key with a blank in front makes a second a |
| `IniExamples.DeletedKeyTakesItsSection` | v2.0.0/inifile.c:1075-1089 | a file of one section and one key, and the key deleted |
| `IniExamples.KeyLeftLeavesAPair` | v2.0.0/inifile.c:1435 | a file of two keys, and the section deleted with the first key left in the parameter |
| `IniExamples.KeyLeftAddsNothing` | v2.0.0/inifile.c:1483 | a section added with a key left in the parameter |
| `IniExamples.ComparisonKeepsTheFile` | v2.0.0/inifile.c:1137-1146 | a section deleted with a smaller key left: the call returns the comparison and the file stays |
| `IniHeap.ChainRemove` | v2.0.0/inifile.c:1349-1371 | unlinking one element of a doubly linked list leaves the list of the others, links mutually inverse |
| `IniHeap.LinkKvContent` | v2.0.0/inifile.c:646-689 | linking a key appends its entry to its section and leaves all other sections and files alone |
| `IniHeap.LinkSecOkExactly` | v2.0.0/inifile.c:1461-1482 | linking a claimed section slot keeps the slot-heap invariant exactly when its file is open |
| `IniHeap.UnlinkKvOk` | v2.0.0/inifile.c:1349-1371 | unlinking a key keeps the slot-heap invariant |
| `IniHeap.UnlinkKvContent` | v2.0.0/inifile.c:1349-1371 | unlinking a key removes its entry and nothing else |
| `IniHeap.UnlinkSecOk` | v2.0.0/inifile.c:1396-1434 | unlinking a section and freeing its keys keeps the slot-heap invariant |
| `IniHeap.UnlinkSecContent` | v2.0.0/inifile.c:1396-1434 | it removes that section and nothing else |
| `IniHeap.CloseFileOk` | v2.0.0/inifile.c:1491-1542 | destroying a file keeps the slot-heap invariant |
| `IniHeap.CloseFileContent` | v2.0.0/inifile.c:1491-1542 | destroying a file empties it and leaves the others' lists and contents unchanged |
| `IniSpace.SecsFullExactly` | v2.0.0/inifile.c:328-346 | every section slot is used exactly when the two files have ten sections together |
| `IniSpace.KeysFullExactly` | v2.0.0/inifile.c:348-366 | every key slot is used exactly when they have a hundred keys together |
| `IniSpace.FittingDoesNotRunOut` | v2.0.0/inifile.c:699-728 | a file that loads to no more than there is room for is read to its end |
| `IniStore.Store.constructor` | v2.0.0/inifile.c:167-185 | the empty store, of fresh arrays, satisfies the invariant |
| `IniStore.Store.GetIndexIniFile` | v2.0.0/inifile.c:308-326 | the first free file slot is claimed, or the array-full code returned |
| `IniStore.Store.GetIndexIniSection` | v2.0.0/inifile.c:328-346 | the same for section slots |
| `IniStore.Store.GetIndexIniKeyvalue` | v2.0.0/inifile.c:348-366 | the same for key slots |
| `IniStore.Store.FindKeyvalueUnsect` | v2.0.0/inifile.c:470-494 | the walk finds the first key slot of the list with the key, or none |
| `IniStore.Store.FindInifileSection` | v2.0.0/inifile.c:560-581 | the walk finds the first section slot of the list with the name, or none |
| `IniStore.Store.FillKeyVal` | v2.0.0/inifile.c:497-558 | a claimed slot gets key and value exactly as the line parses; other slots are untouched on every path |
| `IniStore.Store.InitLineSection` | v2.0.0/inifile.c:583-616 | a section line claims one slot for its name, or gives it back with the error |
| `IniStore.Store.InitEveryLineInifile` | v2.0.0/inifile.c:618-696 | one line changes the index as the loader's step; on an error nothing is changed and the invariant holds; array-full only when ten sections, or a hundred keys, are in use, a pool code only when the pool gave it |
| `IniStore.Store.ReadAnalysIniFile` | v2.0.0/inifile.c:699-728 | a file that loads gives exactly the sections its text means; a failed load keeps the invariant, and array-full means that some line found no slot |
| `IniStore.Store.InitIniFile` | v2.0.0/inifile.c:1150-1183 | opening claims a file slot and stores the name cut to the length given, or closes it again and reports, each code for its own reason only; other files are untouched |
| `IniStore.Store.GetValueOfKey` | v2.0.0/inifile.c:1185-1215 | the value the index holds, or none |
| `IniStore.Store.UpdateValueOfKey` | v2.0.0/inifile.c:1217-1254 | parameters checked, then index, disk and code as the operation's outcome; never array-full, and a pool code exactly when the pool refused the value; other files untouched |
| `IniStore.Store.AddValueOfKey` | v2.0.0/inifile.c:1256-1321 | the same for adding a key; array-full only with a hundred keys |
| `IniStore.Store.DeleteValueOfKey` | v2.0.0/inifile.c:1323-1375 | the same for deleting a key, which needs no space |
| `IniStore.Store.DeleteIniSection` | v2.0.0/inifile.c:1377-1439 | the same for deleting a section, with the key left in the parameter |
| `IniStore.Store.AddIniSection` | v2.0.0/inifile.c:1441-1489 | the same for adding a section to an open file, array-full only with ten sections; a clean new name goes in front as a header with code 0, and with a key left, whatever its value, a file that agrees with its index stays as it is |
| `IniStore.Store.UnlinkKeyvalue` | v2.0.0/inifile.c:1349-1371 | the pointer surgery is the list's removal |
| `IniStore.Store.UnlinkSection` | v2.0.0/inifile.c:1396-1434 | the pointer surgery and the freeing of the keys are the section's removal |
| `IniStore.Store.DestroyIniSource` | v2.0.0/inifile.c:1491-1542 | exactly the slots of the file are freed |
| `IniStore.ClosedFileBreaksTheHeap` | v2.0.0/inifile.c:1441-1489 | with nothing open, a section hung on the closed file 0 breaks the invariant |
| `IniStore.OutcomeIsApply` | v2.0.0/inifile.c:1217-1489 | when no pool or array ran full, the operation's outcome is the one of the file-and-index model |
| `IniSession.OneOutcome` | v2.0.0/inifile.c:1217-1489 | a guarded call keeps file and index agreeing and follows the map, or finds no space and changes nothing |
| `IniSession.Session` | v2.0.0/inifile.c:1217-1542 | any run of guarded calls on an open file keeps every open file agreeing with its index and follows the map; with room for what they add and nothing refused by the pool all are served, with the map's codes |
| `IniSession.UpdateThenGet` | v2.0.0/inifile.c:1185-1254 | a guarded update of a key that is there returns 0 unless the pool refuses the value, and then get and the file read again give the new value |
| `IniSession.OpenUpdateClose` | v2.0.0/inifile.c:1150-1542 | a store made, a file opened, updated and closed: re-read it holds the map with the value changed, other files are as they were; it succeeds when the file fits the slots and the pool refuses nothing |
| `IniPool.CopyReadsExactly` | v2.0.0/inifile.c:282-306 | a copied string is read back exactly when the byte behind it was zero: the pool writes no terminator |
| `IniPool.LiveFitsAllocated` | v2.0.0/inifile.c:187-280 | disjoint linked strings never take more bytes than were bump-allocated |
| `IniPool.LaidOutDisjoint` | v2.0.0/inifile.c:187-280 | strings copied one behind the other are disjoint and inside their range |
| `IniPool.RefusedWithRoom` | v2.0.0/inifile.c:187-306 | calls on an empty pool after which a string is refused with the pool error although all would fit a half |
| `IniPool.LeavesFileOneBehind` | v2.0.0/inifile.c:187-306 | calls on an empty pool after which a flip succeeds and file 1's string is in the old half |
| `IniPool.CopiedReadsExactly` | v2.0.0/inifile.c:197-276 | copied into any half, the strings read back exactly when the byte behind each place was zero |
| `IniPool.Pool.IniFileMemoryAdjust` | v2.0.0/inifile.c:187-280 | every linked pointer goes on reading its string; the exact condition of the error, and exactly when all live strings are in the new half |
| `IniPool.Pool.StorageCharMemory` | v2.0.0/inifile.c:282-306 | without a flip and with a first one: the exact code, and the exact counter unless the flip fails; a stored string reads back and lies apart from every linked one |
| `IniPool.Pool.Link` | v2.0.0/inifile.c:527-549 | linking a stored string keeps all linked strings readable, and disjoint in the active half if they were |
| `IniPool.Pool.UseFile` | v2.0.0/inifile.c:308-326 | taking a file slot into use keeps the pool compact |
| `IniPool.Pool.Unlink` | v2.0.0/inifile.c:1349-1371 | dropping a pointer keeps it compact |
| `NgxPool.RegionsApart` | module_function/memory_pool.c:156-215 | any two regions handed out since the last reset have no byte in common |
| `NgxPool.RegionClearsHeaders` | module_function/memory_pool.c:156-215 | no region overlaps a block header |
| `NgxPool.LargeClearsRegions` | module_function/memory_pool.c:217-275 | no large allocation overlaps a region, large nodes among them |
| `NgxPool.MemalignHonouredExactly` | module_function/memory_pool.c:254-275 | whatever is live, every place it may be given for n bytes is aligned as asked exactly when the alignment divides malloc's |
| `NgxPool.AlignmentMissed` | module_function/memory_pool.c:254-275 | for any other alignment there is a place that is not |
| `NgxPool.FirstFit` | module_function/memory_pool.c:156-181 | the block chosen is the first from current on with room, none before it has |
| `NgxPool.RoomIsFirstFit` | module_function/memory_pool.c:156-181 | there is one exactly when some block from current on has room |
| `NgxPool.ReusedExactly` | module_function/memory_pool.c:228-238 | a large node is used again exactly when one of the first five is empty, and then the first of them |
| `NgxPool.NgxPool.PallocSmall` | module_function/memory_pool.c:156-181 | the region comes from the first block that fits or a new one, aligned if asked; failure changes nothing |
| `NgxPool.NgxPool.PallocBlock` | module_function/memory_pool.c:183-215 | a fresh block behind the others, every block searched in vain one failure more, current moved past those with six |
| `NgxPool.NgxPool.Palloc` | module_function/memory_pool.c:138-145 | with room in a block from current on, its next bytes rounded up to 8 and nothing asked of malloc; without, a new block; over the limit an allocation of its own; null exactly when malloc refuses |
| `NgxPool.NgxPool.Pnalloc` | module_function/memory_pool.c:147-154 | the same, the region starting exactly where the block's last one ended |
| `NgxPool.NgxPool.PallocLarge` | module_function/memory_pool.c:217-252 | entered in the first empty one of the first five nodes, or a new node in front; null exactly when malloc refuses |
| `NgxPool.NgxPool.Pmemalign` | module_function/memory_pool.c:254-275 | a live large allocation with a node of its own in front, wherever malloc may put it; null exactly when malloc refuses |
| `NgxPool.NgxPool.Pfree` | module_function/memory_pool.c:277-291 | exactly a pointer on the large list is freed and taken off; any other changes nothing |
| `NgxPool.NgxPool.Reset` | module_function/memory_pool.c:118-136 | exactly the large allocations are freed, the blocks are empty, no failures, current is the first block |
| `NgxPool.NgxPool.Destroy` | module_function/memory_pool.c:91-116 | everything the pool owns is freed once and nothing else |
| `NgxPool.CreatePool` | module_function/memory_pool.c:67-89 | one block with its header in front, and the limit for small requests; null exactly when malloc refuses it |
| `NgxPool.WholeLife` | module_function/memory_pool.c:67-291 | whatever is asked of a pool between creation and end, the heap is afterwards as before: no double free, nothing left |
| `EsRing.TenSlots` | module_function/es_http_api.c:1644-1647 | in every reachable state the four semaphores and the slots in hand are ten |
| `EsRing.Chain` | module_function/es_http_api.c:201-292 | each stage has taken no more slots than the one before has passed on, the first at most ten more than the last |
| `EsRing.HeldExactly` | module_function/es_http_api.c:201-292 | the wrapping indices cut the ring into arcs: a slot is in a stage's hand exactly when its place says so |
| `EsRing.WaitsExactly` | module_function/es_http_api.c:201-292 | and waits for a stage exactly when its place says so |
| `EsRing.OneOwner` | module_function/es_http_api.c:1448-1613 | in every reachable state no slot is held by two stages, or held by one and waiting for another |
| `EsRing.CalledInOrder` | module_function/es_http_api.c:1794-1903 | for every interleaving the requests called back are a prefix of those answered, these of those sent, these of those submitted |
| `EsRing.FillsOnlyReleased` | module_function/es_http_api.c:1806-1815 | a slot is filled only when its last request was called back and released |
| `EsRing.FindsItsRequest` | module_function/es_http_api.c:1481-1613 | a later stage finds in its slot the request submitted at its turn |
| `EsRing.NeverStuck` | module_function/es_http_api.c:201-292 | while a submitted request is not released some thread can take a step |
| `EsRing.GoesOnExactly` | module_function/es_http_api.c:201-292 | an idle submitter may go on exactly while fewer than ten requests are unreleased, every other stage while the one before is ahead |
| `EsRing.SurprisedExactly` | module_function/es_http_api.c:1507-1510 | a wrong state field is found exactly in the runs where the receiver overtakes the sender's store |
| `EsRing.SurpriseHappens` | module_function/es_http_api.c:1507-1538 | there is such a run |
| `EsRing.EsServer.constructor` | module_function/es_http_api.c:1616-1660 | the initial state of the step system |
| `EsRing.EsServer.GetInsertIndex` | module_function/es_http_api.c:201-210 | taking the insert index is the submitter's step |
| `EsRing.EsServer.GetSendIndex` | module_function/es_http_api.c:212-234 | taking the send index is the sender's step |
| `EsRing.EsServer.GetRecvIndex` | module_function/es_http_api.c:236-261 | taking the receive index is the receiver's step |
| `EsRing.EsServer.GetCallIndex` | module_function/es_http_api.c:263-292 | taking the call index is the caller's step |
| `EsRing.EsServer.StoreSta` | module_function/es_http_api.c:1448-1479 | the store of the state field, with which the caller empties the slot, is the stage's step |
| `JobRing.CountsEveryRun` | module_function/frame_thread_pool.c:28-62 | for any number of producers and workers and any run, semaphores and threads at work make the queue size, and pops trail pushes by at most it |
| `JobRing.JobsRunExactly` | module_function/frame_thread_pool.c:80-176 | whatever the memory held, every run of the pool runs its jobs as they were filled in exactly when there is one worker |
| `JobRing.JobsRunInOrder` | module_function/frame_thread_pool.c:80-100 | when slots are posted in order on both sides, the n-th job taken is the n-th filled in, run once, and every released one was run |
| `JobRing.OneSlotIsOrdered` | module_function/frame_thread_pool.c:106-157 | with one slot every run posts in order, for any number of producers |
| `JobRing.RunsTheWrongJob` | module_function/frame_thread_pool.c:91-97 | with two workers or more there is a run in which a worker runs the next round's job in place of its own |
| `JobRing.OneProducerIsOrdered` | module_function/frame_thread_pool.c:159-176 | with one producer the order of the workers' releases alone decides |
| `JobRing.OneWorkerReleasesInOrder` | module_function/frame_thread_pool.c:80-100 | a single worker always releases in order |
| `JobRing.SameSlot` | module_function/frame_thread_pool.c:33-36 | within one round an index names one submission |
| `JobRing.ThreadPool.constructor` | module_function/frame_thread_pool.c:106-157 | the initial state of the step system, the queue as malloc left it |
| `JobRing.OutOfOrderLosesAJob` | module_function/frame_thread_pool.c:91-97 | two workers releasing out of order lose a job |
| `JobRing.LateFillRunsTheMemory` | module_function/frame_thread_pool.c:168-175 | of two producers one can post before the other has filled its slot, and a worker calls what the memory held |
| `JobRing.ThreadPool.GetFreeJobIndex` | module_function/frame_thread_pool.c:28-39 | taking the push index is the producer's step |
| `JobRing.ThreadPool.GetValidJobIndex` | module_function/frame_thread_pool.c:51-62 | taking the pop index is the worker's step |
| `JobRing.ThreadPool.FillSlot` | module_function/frame_thread_pool.c:159-176 | filling the slot is the producer's step |
| `JobRing.ThreadPool.CallJob` | module_function/frame_thread_pool.c:91-93 | the worker calls what its slot holds |
| `JobRing.ThreadPool.ClearSlot` | module_function/frame_thread_pool.c:95-97 | clearing the slot is the worker's step |
| `Checksum.CalculateTcpCsum` | portscan/ps_prepare.c:181-202 | for any buffer the two folds of its 32-bit sum; up to 131074 bytes the checksum of RFC 1071 |
| `Checksum.RightExactly` | portscan/ps_prepare.c:181-202 | the result is the RFC's for every buffer of n words exactly when n is at most 65537 |
| `Checksum.OddIsPadded` | portscan/ps_prepare.c:191-194 | an odd last byte counts as if a zero stood behind it |
| `Checksum.VerifiesExactly` | portscan/ps_prepare.c:47 | a zeroed word replaced makes the checksum zero exactly when it is the checksum, all ones standing for zero |
| `Checksum.ByteOrderIndependent` | portscan/ps_prepare.c:181-202 | the checksum of byte-swapped words is the byte-swapped checksum (section 2(B) of RFC 1071) |
| `Checksum.OnesSumReduces` | portscan/ps_prepare.c:196-198 | adding with the carry brought round is the sum modulo 65535 with all ones for zero |
| `Checksum.PrepareTcpPkt` | portscan/ps_prepare.c:14-99 | the fields read back from the bytes are the numbers the source puts there, the ports modulo 65536 and the flags of the scan among them; both checksums verify, that of TCP with protocol 6 and length 20; the rest is zero |
| `HostRange.ByteIndexExactly` | portscan/ps_setup.c:301-307 | the byte written is the bit's own but for bits 16 and 24, and outside the mask for bit 24 |
| `HostRange.IpList.GetIpAddresses` | portscan/ps_setup.c:276-345 | the hosts pushed, newest first, onto what was listed; a prefix over 32 ends the program, one below 8 writes outside the mask |
| `HostRange.Netmask` | portscan/ps_setup.c:298-311 | what the loop leaves for every prefix from 8 on; below, and only below, it comes to write outside the mask |
| `HostRange.NetmaskExactly` | portscan/ps_setup.c:298-311 | that is the standard mask exactly for prefixes from 16 on |
| `HostRange.MaskValue` | portscan/ps_setup.c:298-311 | the standard mask's value is 2 to the 32 less the size of the range |
| `HostRange.NetworkOf` | portscan/ps_setup.c:313-318 | the masked address is the multiple of the range's size next below the given one |
| `HostRange.HostValue` | portscan/ps_setup.c:321-326 | or-ing the byte-swapped host number in adds it |
| `HostRange.ListsTheHosts` | portscan/ps_setup.c:321-345 | from prefix 16 on the list is network+1 to broadcast-1 in order, each once, and empty for 31 and 32 |
| `HostRange.ListsWhatResolves` | portscan/ps_setup.c:321-345 | whichever resolve, the list is exactly the addresses between network and broadcast that do, the greatest in front, each once |
| `HostRange.PushedOnto` | portscan/ps_setup.c:437-463 | what was listed before stays behind them |
| `HostRange.IpList.PushIp` | portscan/ps_setup.c:437-463 | an address that resolves goes to the front |
| `ResultTable.Results.PushResult` | portscan/ps_setup.c:658-719 | the loops find or make the record and update it as the table's step |
| `ResultTable.RecordExactly` | portscan/ps_setup.c:658-719 | after any pushes there is a record exactly for what was pushed, with the last values and the least of 10 and all values ever pushed |
| `ResultTable.KeepsFirstService` | portscan/ps_setup.c:674-690 | a record keeps the service of the first push for its address and port |
| `ResultTable.OneRecordEach` | portscan/ps_setup.c:666-690 | no address and port has two records |
| `ResultTable.OrderDoesNotMatter` | portscan/ps_setup.c:702-713 | any permutation of the pushes gives the same conclusions |
| `FtpListing.FindFileNamePoint` | module_function/ftp_curl_operation.c:52-105 | the name is the ninth column of a plain line with the key and at least 50 characters, none if there is no such column; the size is the fifth if it fits |
| `FtpListing.OneName` | module_function/ftp_curl_operation.c:52-105 | a line has one ninth column |
| `FtpListing.NameHasSize` | module_function/ftp_curl_operation.c:76-97 | with a ninth column it has a fifth before it |
| `FtpListing.SizeFitsExactly` | module_function/ftp_curl_operation.c:78-86 | what a line is reported as depends on it alone exactly when its size column fits |
| `FtpListing.ReportsNames` | module_function/ftp_curl_operation.c:147-159 | a reported name is the ninth column of a folder's or a file's line |
| `FtpListing.ReportedExactly` | module_function/ftp_curl_operation.c:52-105 | a line is reported exactly when it has fifty characters, begins with d or -, and has a ninth column with nothing but ASCII up to it; as a folder exactly for d |
| `FtpListing.AtoiReads` | module_function/ftp_curl_operation.c:84 | a sign is read, blanks in front are passed, and nothing behind the digits is read |
| `FtpListing.LinesOfTwo` | module_function/ftp_curl_operation.c:125-162 | lines reach over the end of a chunk: the unfinished line of one begins the next |
| `FtpListing.Listing.Callback` | module_function/ftp_curl_operation.c:107-164 | a chunk makes the calls for the lines it completes and leaves the unfinished one in the buffer |
| `FtpListing.Listing.Flush` | module_function/ftp_curl_operation.c:649-666 | what is left at the end is reported as a line |
| `FtpListing.ChunksDoNotMatterExactly` | module_function/ftp_curl_operation.c:107-164 | every cut of a listing gives with the flush the calls of its lines one by one, exactly when no line reported with an oversize size column stands behind a last stored size other than 0 |
| `FtpListing.ScanAllExactly` | module_function/ftp_curl_operation.c:125-162 | the same for the lines of one chunk |
| `FtpListing.TwoCutsDiffer` | module_function/ftp_curl_operation.c:107-164 | a listing of two files reported with different sizes when cut in two ways |
| `FtpListing.SizeReadExactly` | module_function/ftp_curl_operation.c:84 | a printed size is read back exactly below 2 gigabytes |
| `FtpListing.ScanFolder` | module_function/ftp_curl_operation.c:639-666 | a whole scan makes exactly the calls of its chunks and the flush |

## Left out

- INI: version 1, mutexes, fopen, renaming and the system calls; a file is a text on a map from names to texts, and a rewrite that succeeds replaces it.
- INI: lines over the 1024-byte buffer (the guards of `IniDb.Safe` and the squares say where a written line must fit) and NUL characters in a file.
- INI: the result of memcmp is modelled by its sign, -1, 0 or 1.
- INI: the lengths in an INI_PARAMETER are taken to be those of its strings.
- INI: for a line that is all blank in front of its equals sign the backward scan looks at one byte before the line; the result is the same, the out-of-bounds read is not modelled.
- IniStore.Store.AddIniSection: requires an open file; on a closed one the code hangs the section on a free file slot, which breaks the heap (`IniHeap.LinkSecOkExactly`, `IniStore.ClosedFileBreaksTheHeap`), and goes on to open a file without a name.
- IniStore.Store.StorageCharMemory: the store keeps strings by value and the pool's answer is any of its three codes, on record for the reader; `IniPool` models the pool apart, and the two are not joined.
- IniPool.Pool.IniFileMemoryAdjust: one flip into a zeroed half; a later flip into the half used before, which the code never clears, and a string stored but not yet linked during a flip are not preserved by the code (`IniPool.CopiedReadsExactly` says when a copy into a half that is not zero reads back). The strings of a file are one list in the order the copying loop meets them.
- IniPool.Pool.StorageCharMemory: leaves out the same second flip; where a flip fails the counter is only said to be a half or more.
- IniPool.Pool.Link: the file has to be open and the string still in the active half, as it is for every caller that links what it has just stored.
- NgxPool.CreatePool: block sizes below a block header, for which the size left wraps round, and those that are not a multiple of the alignment.
- NgxPool: the cleanup list and its handlers, and the zeroing allocation. malloc is a nondeterministic heap that fails at will and returns memory aligned to 16.
- EsRing: the submitters are one thread, since the mutex lets them fill a slot one at a time.
- EsRing: the aborted submission, whose undo of the index does not wrap; requests of which nothing is sent; reconnecting, shutdown and the blocking query. The scanning of the answers is one step.
- JobRing.JobsRunInOrder: run by run, posting in order is shown to be enough, not to be needed; some runs out of order do no harm. Over all runs of a pool `JobRing.JobsRunExactly` is exact.
- JobRing: quitting and destroying the pool, and the counter of sleeping threads.
- Checksum: addresses are given as four bytes rather than dotted text; the DNS and UDP packets. The host is little-endian, so the total length, which the code leaves in host order, is stored low byte first.
- HostRange.IpList.GetIpAddresses: name lookup is a parameter that resolves an address to itself or not at all; the parsing and printing of dotted text is left out. For a prefix below 8 the model ends where the code writes outside the mask.
- HostRange.Netmask: prefixes over 32, which end the program before the loop, and negative ones.
- ResultTable: unlocked concurrent pushes; each push is one step.
- FtpListing.Listing.Callback: a chunk is taken to end in a terminator and to hold no other NUL, every line must fit its 1024-byte buffer, and char is signed. atoi is the C library's: the number truncated to 32 bits.
- The JSON scanner, sockets, packet capture, DNS, version detection, the xls wrapper, daemon, logging and demo code.
