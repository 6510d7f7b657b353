# Verified models of PCRE's DFA matcher and SQLite's b-tree

The repository keeps its own copies of two libraries, and this project models the parts of them whose
correctness is hardest to see from the code.

* **PCRE**, `pcre_dfa_exec`: a compiled pattern is a sequence of opcode bytes; the matcher keeps two vectors of
  states in a workspace of fixed size and walks the subject once, recording every match that begins at one
  position. Modelled are the encoder's layout, the action of each opcode, the state vectors and the match list, the
  search for a start position, partial matches and restarts, and the UTF-8 encoder, validator and decoders.
* **SQLite**, `btree.c` and `hash.c`: pages whose cells, cell pointers, free blocks and fragments are rewritten in
  place; the list of free pages; balancing of neighbouring pages; the payload of a cell and its overflow pages;
  cursors; the cut and the moves of an auto-vacuum with the pointer map; transactions and table locks of handles on
  a shared cache; and the symbol-table hash.

Code that changes things in place is a class or a method on arrays (`MemPage`, `FreeList`, `Store`, `BtCursor`,
`Hash`, `BtShared`, `StateList`, `Workspace`), each method proved against functions of the old and new state. What
the code is for is then proved of those functions.

The main results:

* A DFA run has exactly the words of the pattern as its matches (`InternalDfaExec`, `MatchesAreWords`), a whole call
  the words from the leftmost position that has any (`DfaExec`, `DfaExecAsDocumented`), and a subject in pieces the
  words of the pieces together (`MatchPieces`); for restarts that search for another start position it is said
  exactly when this fails (`RestartExact`, `RestartGuard`, `PieceGuard`).
* Every byte of a page is accounted for (`PagePartition`), and page operations keep that and the cells
  (`AllocateSpace`, `FreeSpace`, `DropCell`, `InsertCell`, `DefragmentPage`, `AssemblePage`).
* Balancing keeps the meaning of the siblings, uses as few pages as any division could and never more than two pages
  beyond those it began with, and leaves none empty while there are cells (`Balance`, `Divide`, `SameMeaning`, `TwoMorePages`).
* An auto-vacuum renames pages and changes nothing else; it is said exactly when the file is as short as it can be,
  and how many pages are lost otherwise (`AutoVacuumCommit`, `ReservedBytes`).
* A cell's payload can be read back byte for byte, in any window (`FillInCell`, `GetPayload`).
* A cursor's position counts the entries before it; next and previous undo each other; a search lands where the key
  is or would be (`MoveTo`, `ForthAndBack`, `EntriesAscend`).
* Allocation takes a page that is free and loses none, except in the one case described by `Misled`
  (`AllocatePage`).
* Whatever handles on a shared cache do, one at most writes, and a write lock excludes all others (`Run`,
  `Integrity`).

`CellKind.Valid()`, `Dims.Valid()` and the like say what an opened database guarantees of its page size; `HintsHold`
says that the first and the required byte which the compiler noted are right.

## Model

| member | source | states |
|---|---|---|
| PcreDfaState.StateList.Add | pcre/pcre_dfa_exec.c:220-257 | a state is appended to the vector exactly if there is room, and nothing changes otherwise |
| PcreDfaState.AddBranches | pcre/pcre_dfa_exec.c:622-629 | all branches of a bracket are appended in order, or the vector was too small |
| PcreDfaState.FindKet | pcre/pcre_dfa_exec.c:616-619 | following the links ends at the first opcode that heads no alternative |
| PcreDfaState.ActOnBracket | pcre/pcre_dfa_exec.c:576-638 | bracket opcodes add what the state relation says, to the active vector only |
| PcreDfaState.ActOnRepeat | pcre/pcre_dfa_exec.c:785-857 | for repeated characters and types: the state added without a character, and the one added for each possible character |
| PcreDfaState.ActOnClass | pcre/pcre_dfa_exec.c:1205-1281 | the same for a class bitmap with or without a repeat, including the comparison with a maximum of zero |
| PcreDfaState.ActOnOne | pcre/pcre_dfa_exec.c:1008-1080 | the same for single tests, which never add to the active vector |
| PcreDfaState.Act | pcre/pcre_dfa_exec.c:529-1281 | one state's action appends exactly what the relation gives to each vector; it fails only if one of them was too small |
| PcreDfaOffsets.BraZeroStays | pcre/pcre_dfa_exec.c:632-638 | an optional bracket leads into itself or just past itself, never elsewhere in the code |
| PcreDfaOffsets.KetStays | pcre/pcre_dfa_exec.c:576-585 | the end of an inner bracket leads past the bracket or, if it repeats, back to its head |
| PcreDfaSteps.ChrStep | pcre/pcre_dfa_exec.c:1008-1281 | at any item of an encoded pattern, with any count, the matcher does what the item says: it may leave, and each character leaves, counts or fails |
| PcreDfaSteps.LeavesInCounts | pcre/pcre_dfa_exec.c:835-857 | counting from zero lets through exactly the numbers of repetitions the item allows, and for an open range on a class only one or none |
| PcreCharacters.TypePasses | pcre/pcre_dfa_exec.c:681-720 | in either reading `\d`, `\s` and `\w` pass the characters with bit 4, 1 or 16 in the type table, their negations all others, and a dot every character but the newline, or any under dotall |
| PcreCharacters.ClassPasses | pcre/pcre_dfa_exec.c:1205-1222 | a class passes character c exactly if bit c % 8 of byte c / 8 of its bitmap is set |
| PcreCharacters.CharPasses | pcre/pcre_dfa_exec.c:1008-1147 | a character passes itself, and its other case under caseless, or as coded for `*` and `?` also under multiline or dotall; a negated one passes all others |
| PcreCharacters.DigitRun | pcre/pcre_dfa_exec.c:701-857 | the items emitted for a repeated `\d` match a whole subject of allowed length exactly if the type table marks every character of it as a digit |
| PcreDfaLanguage.BracketShape | pcre/pcre_dfa_exec.c:576-638 | where a bracket's head, closing opcode and link back are in the code |
| PcreDfaLanguage.PatternLanguage | pcre/pcre_dfa_exec.c:387-412 | from the outer bracket's branches the end state is reached at a position exactly if a word of the pattern ends there |
| PcreDfaRun.Covered | pcre/pcre_dfa_exec.c:421-477 | sets of states closed under the additions hold every state that can be reached at all |
| PcreDfaScan.RecordMatch | pcre/pcre_dfa_exec.c:587-600 | the vector keeps the latest matches, longest first, as many as it holds, and the count returned is that of the ends so far |
| PcreDfaScan.DistinctSize | pcre/pcre_dfa_exec.c:515-525 | after duplicates are skipped, the states acted on at one position are at most code size times the largest count plus one |
| PcreDfaScan.RoomyAct | pcre/pcre_dfa_exec.c:220-257 | so both vectors stay within a bound that depends on code size and count only |
| PcreDfaExec.IsDuplicate | pcre/pcre_dfa_exec.c:515-525 | a state is skipped exactly if an earlier one at this position has its offset and count |
| PcreDfaExec.ScanOne | pcre/pcre_dfa_exec.c:477-609 | acting on one state keeps the scanning invariant, records an end exactly if it is allowed, and runs out of room only below the bound |
| PcreDfaExec.ScanPosition | pcre/pcre_dfa_exec.c:472-1549 | all states of a position, and those they add, are acted on; the position is recorded once if the end state is among them |
| PcreDfaExec.RunLast | pcre/pcre_dfa_exec.c:1553-1577 | when no state is brought forward, the recorded ends are all the ends there are |
| PcreDfaExec.Workspace.constructor | pcre/pcre_dfa_exec.c:296-311 | the workspace is split into two vectors of four-int blocks after two header ints |
| PcreDfaExec.Begin | pcre/pcre_dfa_exec.c:387-414 | the first states are those of all branches or, restarting, the ones saved in whichever vector was current |
| PcreDfaExec.Turn | pcre/pcre_dfa_exec.c:421-1577 | one turn of the loop keeps the run invariant or stops with the promised outcome |
| PcreDfaExec.InternalDfaExec | pcre/pcre_dfa_exec.c:261-1577 | the run returns all ends of matches in increasing order (or the smallest), stored longest first, with the right count; or a partial match whose saved states stand for all live ones; or no room, and then the workspace is below a stated bound |
| PcreDfaTop.MatchesAreWords | pcre/pcre_dfa_exec.c:387-412 | the matches of a run from the pattern's branches are the words of the pattern that begin there, both ways |
| PcreDfaTop.ZeroReturned | pcre/pcre_dfa_exec.c:587-592 | when the count returned is zero: too many matches for the vector, or two or more that fill it exactly |
| PcreDfaTop.SkipToFirst | pcre/pcre_dfa_exec.c:1786-1796 | the start moves to the first byte that may begin a match and over none that may |
| PcreDfaTop.FindReq | pcre/pcre_dfa_exec.c:1846-1865 | the required byte's first place at or after a position, or the end |
| PcreCharacters.HintsMean | pcre/pcre_dfa_exec.c:1735-1758 | a first byte stands for itself or, noted as caseless, for both cases, and so does the required byte |
| PcreCharacters.CaselessHints | pcre/pcre_dfa_exec.c:1735-1758 | the bytes noted for a caseless pattern of two characters are right for all its words |
| PcreDfaTop.DfaExec | pcre/pcre_dfa_exec.c:1740-1910 | all earlier start positions have no word (nor, if asked for, a partial match, unless skipped for their first byte); the result is the run's at the first that has; hints never lose a match |
| PcreDfaTop.WordsAsDocumented | pcre/pcre_dfa_exec.c:1084-1281 | a pattern of faithful items has the documented words from every position |
| PcreDfaPieces.DfaExecAsDocumented | pcre/pcre_dfa_exec.c:1740-1910 | so a call on such a pattern returns the documented leftmost words, all of them longest first or the shortest, or no match if there is none |
| PcreDfaRestart.LiveBeyond | pcre/pcre_dfa_exec.c:387-399 | beyond the first piece, what is live over both pieces is what is live over the second from the saved states |
| PcreDfaRestart.MatchesInPieces | pcre/pcre_dfa_exec.c:387-399 | the matches over two pieces are those over the second from the saved states, moved up by the first piece's length |
| PcreDfaRestart.StandsJoin | pcre/pcre_dfa_exec.c:1553-1577 | states saved after a second partial match stand for the run over both pieces, so pieces can be chained |
| PcreDfaPieces.FirstRight | pcre/pcre_dfa_exec.c:403-412 | a first call gives the answer for its piece; if that is partial its states can be taken up |
| PcreDfaPieces.ResumedRight | pcre/pcre_dfa_exec.c:387-399 | a run taken up from them gives the answer for all pieces: the stored offsets are those of all words (or the shortest), or of the partial match; no match only if there is no word |
| PcreDfaPieces.PartialIsPending | pcre/pcre_dfa_exec.c:1553-1577 | the states any whole call leaves with a partial match are such as a restart can take up |
| PcreDfaPieces.MatchPieces | pcre/pcre_dfa_exec.c:387-399 | over any number of pieces the last run made has the answer for all of them together, offsets counted in the last piece |
| PcreDfaPieces.DfaExecRestart | pcre/pcre_dfa_exec.c:1766-1910 | a restart's result, with the states held at each start position it goes on to, and where it gives up |
| PcreDfaPieces.RestartExact | pcre/pcre_dfa_exec.c:1766-1910 | a restart after a partial match is right exactly if: where it gives up there is no word, and otherwise it stays at the first position or finds nothing at later ones |
| PcreDfaPieces.NoMatchRight | pcre/pcre_dfa_exec.c:1893-1896 | where the pieces together have no word, "no match" is the one right result; where they have one, it is wrong |
| PcreDfaPieces.GivesUpRight | pcre/pcre_dfa_exec.c:1830-1877 | giving up is right if the part of the subject not looked at has no required byte either |
| PcreDfaGuard.RestartGuard | pcre/pcre_dfa_exec.c:1740-1910 | all restarts with given options, room enough in the workspace, are right if and only if they are anchored, and ask for partial matches or have no required byte |
| PcreDfaAnchored.PieceGuard | pcre/pcre_dfa_exec.c:1830-1877 | for given case tables, hints, options and new piece, all anchored restarts, whatever the pattern and the pieces before, are right if and only if the piece is empty, partial matches are asked for, no byte is required, the piece has 1000 bytes or more, or the required byte is in it |
| PcreDfaGuard.AbWrong | pcre/pcre_dfa_exec.c:1893-1899 | pattern `ab`, "a" and then "xbb", not anchored: one match is returned, with or without partial matching, though "axbb" has none |
| PcreDfaGuard.AbFirstByteMissed | pcre/pcre_dfa_exec.c:1842-1877 | pattern `ab`, "a" and then "b", no partial matching: no match is returned, though "ab" is a word |
| PcreDfaGuard.AbAnyWrong | pcre/pcre_dfa_exec.c:1830-1877 | pattern `ab.`, "ab" and then "c", anchored, no partial matching: no match, though "abc" is a word |
| PcreDfaGuard.AbRestarted | pcre/pcre_dfa_exec.c:1740-1910 | two whole calls for `ab` with partial matching: "a" is partial, and "xb" then yields one match |
| PcreDfaGuard.AbGivenUp | pcre/pcre_dfa_exec.c:1740-1910 | two whole calls for `ab`, partial matching in the first only: "a" is partial, and "b" then yields no match |
| PcreReadings.ItemReadsIff | pcre/pcre_dfa_exec.c:1112-1270 | an item matches what is documented on every subject exactly if it is no `*` or `?` on a cased character under multiline or dotall alone, and no open range on a class with a member |
| PcreReadings.ReadsAsDocumented | pcre/pcre_dfa_exec.c:1084-1281 | a pattern of such items has the documented language |
| PcreReadings.DotallStarIgnoresCase | pcre/pcre_dfa_exec.c:1120-1147 | with dotall alone `a*` matches "A" |
| PcreReadings.OpenRangeMissesLongRuns | pcre/pcre_dfa_exec.c:1263-1273 | `[a]{2,}` does not match "aaaa" |
| PcreRepeats.RepeatedCharMeans | pcre/pcre_internal.h:482-592 | the items emitted for a repeated character, type or class match, as documented, from min to max characters that pass |
| PcreRepeats.RepeatedGroupMeans | pcre/pcre_internal.h:482-592 | the brackets emitted for a repeated group match from min to max consecutive words of the group |
| PcreUtf8.Decoded | pcre/pcre_tables.c:62-81 | the first byte of an encoded character tells its length, and all its bytes give back the code |
| PcreUtf8.EncodedForms | pcre/pcre_ord2utf8.c:60-76 | the six forms written out: what bits of the code each byte has |
| PcreUtf8.ShortForm | pcre/pcre_valid_utf8.c:98-127 | the tests on the first two bytes pass exactly if the character is in shortest form |
| PcreUtf8.StartsIff | pcre/pcre_valid_utf8.c:77-127 | when a character is at the front of a string, byte by byte |
| PcreUtf8.FrontUnique | pcre/pcre_tables.c:62-81 | at most one code's encoding is at the front of a string |
| PcreUtf8.Aligned | pcre/pcre_tables.c:62-81 | an encoded sequence that is a prefix of another encodes a prefix of its codes |
| PcreUtf8.Ord2Utf8 | pcre/pcre_ord2utf8.c:60-76 | the buffer begins with the shortest form of the code, the rest of it untouched |
| PcreUtf8.ValidUtf8 | pcre/pcre_valid_utf8.c:66-130 | -1 exactly for strings of whole characters in shortest form; otherwise the offset of the bad byte: the one at which no character starts or too few bytes follow, else the first that continues none, or the second if the form is too long |
| PcreUtf8.GetCharInc | pcre/pcre_internal.h:291-303 | the code whose encoding is at a place, and the place after it |
| PcreUtf8.DecodeAll | pcre/pcre_internal.h:291-303 | reading character by character gives back the codes a string was made from |
| PcreUtf8.BackChar | pcre/pcre_internal.h:343 | from any byte of a character back to its first |
| PcreUtf8.Utf82Ord | pcre/pcretest.c:147-185 | the checked decoder succeeds exactly where the validator would, with the code and its length; otherwise minus the place of the byte that is wrong, or zero |
| BtreeCell.VarintRoundTrip | sqlite/util.c:1168-1260 | a stored varint of up to 64 bits is 1 to 9 bytes, and either reader gives back value and length as far as it goes |
| BtreeCell.CellExtends | sqlite/btree.c:920-984 | a cell is parsed the same whatever bytes follow it |
| BtreeCell.CellSkips | sqlite/btree.c:920-984 | the bytes of the child pointer do not matter to how a cell is parsed |
| BtreeSpace.CoverSize | sqlite/btree.c:6294-6341 | disjoint blocks cover as many bytes as their sizes sum to |
| BtreeSpace.Packed | sqlite/btree.c:6294-6341 | cells and free blocks never exceed the room they lie in |
| BtreePartition.PagePartition | sqlite/btree.c:6294-6341 | every byte of a page is header or pointer, gap, part of one cell, part of one free block, or one of the fragments, which are as many as the header counts; free blocks are four bytes apart |
| BtreeContents.StaysIntact | sqlite/btree.c:1143-1318 | changes to free space only leave a page in order and its cells as they were |
| BtreePage.MemPage.DefragmentPage | sqlite/btree.c:1143-1192 | all cells at the end of the page, in the same pointer order with the same bytes; no free block or fragment left |
| BtreePage.MemPage.TakeFree | sqlite/btree.c:1218-1247 | the first block with room is used, its end or, with less than four bytes left over, all of it, the rest becoming fragments; none exactly if none has room; what is handed out is disjoint from all cells and blocks |
| BtreePage.MemPage.AllocateSpace | sqlite/btree.c:1204-1258 | fails exactly if the free bytes do not suffice or a cell is waiting, and then changes nothing; with fewer than 60 fragments the first free block with room is used, else the gap if it suffices, else the gap after defragmenting; the block is disjoint from all others and the free count falls by its size |
| BtreePage.MemPage.LinkFree | sqlite/btree.c:1266-1291 | the block is in its place in the sorted list, and counted |
| BtreePage.MemPage.Coalesce | sqlite/btree.c:1293-1308 | no two free blocks closer than four bytes remain, and no byte is lost |
| BtreePage.MemPage.AbsorbFirst | sqlite/btree.c:1310-1318 | a free block at the start of the cell content becomes part of the gap; none begins there afterwards |
| BtreePage.MemPage.FreeSpace | sqlite/btree.c:1266-1318 | a block given back is free again, its size counted; all cells keep their bytes, the fragments do not grow, and no free block begins the cell content |
| BtreePage.MemPage.InitPage | sqlite/btree.c:1360-1425 | accepts a page exactly if its cells are no more than a page of that size can have, it has one where it should, its free blocks are a chain, each more than three bytes after the one before, and the free bytes are less than the page; reads back that chain and the free count; every page in order is accepted |
| BtreePage.MemPage.ZeroPage | sqlite/btree.c:1435-1457 | an empty page in order, whatever it held, with the flags given and the bytes before them as they were |
| BtreePage.MemPage.FindOverflowCell | sqlite/btree.c:884-913 | the cell of that number among cells on the page and cells that wait |
| BtreePage.MemPage.DropCell | sqlite/btree.c:4146-4168 | the list of cells without that cell, the others in order; size and pointer are free again |
| BtreePage.MemPage.PlaceCell | sqlite/btree.c:4212-4245 | the new cell at its place in pointer order, the others as they were; they do not move if the gap has room and fragments are few, and the page is defragmented if the gap has no room |
| BtreePage.MemPage.InsertCell | sqlite/btree.c:4187-4250 | the list of cells with the new one at its place; on the page exactly if none waits and it fits with its pointer; if it waits the page's bytes do not change |
| BtreePage.MemPage.PutChild | sqlite/btree.c:4913-4943 | only the child pointer of that cell, on the page or waiting, changes; flags, bytes before them and right child stay |
| BtreePage.MemPage.AssemblePage | sqlite/btree.c:4265-4303 | an empty page then holds exactly the cells given, in order, and the free count is right |
| BtreeDivider.StripCell | sqlite/btree.c:4681-4715 | without its child pointer a cell is four bytes shorter, before rounding |
| BtreeDivider.DividerOnLeaf | sqlite/btree.c:4681-4715 | a divider of eight bytes or more, less its pointer, is a whole leaf cell |
| BtreeDivider.LeafAsDivider | sqlite/btree.c:4929-4942 | a leaf cell that needs no rounding, behind any pointer, is a whole divider |
| BalancePacking.AtLeastAsFar | sqlite/btree.c:4735-4749 | filling from the left gets at least as far, page by page, as any division that fits |
| BalancePacking.Fill | sqlite/btree.c:4735-4749 | a division that fits; every page but the last could not take its next cell; the noted sizes exceed the true ones by two |
| BalancePacking.Shift | sqlite/btree.c:4771-4777 | moving a cut by one cell moves just that cell's bytes, or swaps it with the divider |
| BalancePacking.EvenPair | sqlite/btree.c:4761-4780 | of two neighbouring pages the right one takes cells exactly until it is not empty and one more would make it larger than the left one; no other cut changes |
| BalancePacking.EvenOut | sqlite/btree.c:4761-4780 | evening out keeps every page within its room and, with any cells at all, leaves none empty; each page from the last on has taken cells one at a time from the page before it just as long as it was empty or would not outgrow it |
| BalancePacking.Divide | sqlite/btree.c:4735-4786 | no division that fits has fewer pages, and with any cells at all no page is empty; it is the fullest division from the left, evened out from the right |
| BalanceMeaning.GatherMeans | sqlite/btree.c:4656-4717 | the gathered cells, dividers among them, mean in order what the pages and dividers meant |
| BalanceMeaning.GatherDivided | sqlite/btree.c:4868-4963 | gathering the cells of new pages gives back the cells that were divided |
| BalanceMeaning.SameMeaning | sqlite/btree.c:4656-4963 | gathering and dividing keeps the in-order sequence of child pages and keys |
| BalanceMeaning.SameLeaves | sqlite/btree.c:4656-4963 | in a leaf-data tree, the in-order sequence of leaf cells |
| BalanceBound.TwoMorePages | sqlite/btree.c:4480-4483 | the cells of pages of which one is overfull have a division of at most two pages more, so the arrays of NB+2 suffice |
| BalanceSiblings.TakeDivider | sqlite/btree.c:4681-4715 | the divider leaves the parent, with the right child of the page before it as its child |
| BalanceSiblings.GatherCells | sqlite/btree.c:4656-4717 | the cells gathered are those of all chosen pages in order with their dividers, and the parent is without just these |
| BalanceSiblings.FillPage | sqlite/btree.c:4868-4876 | a zeroed page then holds exactly the cells and the right child given, and keeps its flags |
| BalanceSiblings.DividerAt | sqlite/btree.c:4905-4942 | the divider after a page: an interior cell as it is, a leaf cell behind a pointer, or in a leaf-data tree the last key |
| BalanceSiblings.Spread | sqlite/btree.c:4868-4953 | the new pages hold the division and keep their flags, and the parent has their dividers, each leading to its page, in the right place |
| BalanceNonroot.ChooseSiblings | sqlite/btree.c:4530-4570 | a neighbour on each side where there is one, two on one side at the ends, all children if there are fewer |
| BalanceNonroot.NewPages | sqlite/btree.c:4788-4853 | the pages to write are the first of those available, zeroed with the flags given, in ascending order |
| BalanceNonroot.SortPages | sqlite/btree.c:4834-4853 | numbers and pages are permuted together into ascending order |
| BalanceNonroot.Divisible | sqlite/btree.c:4480-4483 | what the chosen siblings hold can always be divided among two pages more |
| BalanceNonroot.Plan | sqlite/btree.c:4656-4786 | the division chosen needs no more pages than any other |
| BalanceNonroot.Rewrite | sqlite/btree.c:4788-4963 | the pages written are the first of the available ones in ascending order, with the flags given; they hold the division; the parent leads to them |
| BalanceScratch.ScratchFits | sqlite/btree.c:4692-4931 | the dividers copied to the scratch area while gathering and spreading never take more than five pages |
| BalanceNonroot.Balance | sqlite/btree.c:4458-4996 | the new siblings mean what the old ones meant, are as few as any division that fits and at most two more than before, have the flags of the overfull page, and a cell each if there are any cells; old pages are used before unused ones; the parent lists exactly the new children and keys in place of the old, its flags as they were; other children keep their contents, and the scratch area suffices |
| BalanceQuick.Quick | sqlite/btree.c:4344-4413 | the waiting cell is alone on the new last page, whose flags are the old page's; the old page keeps its bytes and the others; the parent has one more key, the old page's largest |
| BalanceQuick.Forget | sqlite/btree.c:4359-4367 | the page is in order afterwards exactly if its cells fill it; only then is its free count, which stays zero, right |
| BalanceQuick.StaleLeaf | sqlite/btree.c:4359-4367 | a leaf that afterwards has 400 free bytes and counts none |
| Payload.LocalSizeBest | sqlite/btree.c:955-984 | of all local sizes the limits allow, the one chosen needs the fewest overflow pages; the last of these is full or the least is kept |
| Payload.ChainLength | sqlite/btree.c:6258 | a cell's chain is as long as the integrity check computes |
| Payload.OnePayload | sqlite/btree.c:2951-3029 | a cell has one payload and one chain |
| Payload.OtherPages | sqlite/btree.c:2951-3029 | changes to other pages do not change a cell's payload |
| PayloadCells.HeaderRead | sqlite/btree.c:920-984 | a header as written is parsed back to key, data size and local size, whatever follows |
| PayloadCells.EntriesLeadBack | sqlite/btree.c:4024-4040 | pointer-map entries of a new chain lead each page back to the one before; other entries stay |
| PayloadCells.Store.FillInCell | sqlite/btree.c:3971-4065 | succeeds exactly if there are pages enough; then cell and chain hold the payload, the size is the parsed one, the pages used are the front of the supply and no other page changes |
| PayloadCells.Store.GetPayload | sqlite/btree.c:2951-3029 | any window of the payload, of the key and data or the data alone; an error exactly if it reaches beyond the end; nothing else of the buffer changes |
| PayloadCells.Store.ClearCell | sqlite/btree.c:3933-3957 | exactly the chain's pages go back to the supply |
| BtreeTree.EntryAt | sqlite/btree.c:3161-3335 | the cell at a place is the entry whose number is the count of entries before it |
| BtreeTree.OnePlace | sqlite/btree.c:3161-3335 | no two places in a tree have the same entry |
| BtreeTree.EntriesAscend | sqlite/btree.c:3506-3565 | an in-order walk of a sorted tree meets its entries in ascending order |
| BtreeTree.Separated | sqlite/btree.c:3382-3483 | left of the child gone down to all entries are less than the key, right of it greater |
| BtreeCursor.BtCursor.MoveToChild | sqlite/btree.c:3161-3184 | what is before the child is then to the left, what is after it to the right |
| BtreeCursor.BtCursor.MoveToParent | sqlite/btree.c:3209-3229 | back to the page and the child index the path noted |
| BtreeCursor.BtCursor.First | sqlite/btree.c:3321-3335 | at entry 0, or at none exactly if the tree is empty |
| BtreeCursor.BtCursor.Last | sqlite/btree.c:3340-3354 | at the last entry, or at none exactly if the tree is empty |
| BtreeCursor.BtCursor.Next | sqlite/btree.c:3506-3565 | one entry on, or at the end exactly after the last |
| BtreeCursor.BtCursor.Previous | sqlite/btree.c:3573-3624 | one entry back, or at the end exactly before the first |
| BtreeCursor.BtCursor.ForthAndBack | sqlite/btree.c:3506-3624 | next and then previous is the same page, path and index |
| BtreeCursor.BtCursor.BackAndForth | sqlite/btree.c:3506-3624 | previous and then next likewise |
| BtreeCursor.BtCursor.SearchPage | sqlite/btree.c:3400-3462 | the binary search, begun at the rightmost cell or in the middle, ends between the keys less and the keys not less |
| BtreeCursor.BtCursor.MoveTo | sqlite/btree.c:3382-3483 | zero exactly if some entry has the key, and then at one; else on a leaf next to where it would be, on the side the sign says, with all entries divided there |
| Freelist.FreeList.FreePage | sqlite/btree.c:3865-3928 | the page is on the list, once, with all others; as a leaf of the first trunk exactly if that has room, else as a new trunk of which only two words are written |
| Freelist.FreeList.ClosestLeaf | sqlite/btree.c:3781-3799 | the first leaf if no page is wanted nearby; else no leaf is nearer to it on either side, and none before it is as near |
| Freelist.FreeList.TakeLeaf | sqlite/btree.c:3801-3824 | the leaf leaves the list, the last leaf of the trunk takes its place, and no other page changes |
| Freelist.FreeList.TakeTrunk | sqlite/btree.c:3700-3778 | the trunk leaves the list; its leaves stay, in their order, under the first of them, in its place |
| Freelist.FreeList.TakeFromList | sqlite/btree.c:3647-3828 | a page of the list leaves it and no other does; a search yields the page wanted, and leaves the list in order exactly if it is not misled; without one it is the first trunk if that has no leaves, else the leaf of it nearest the page wanted |
| Freelist.FreeList.TakeFromEnd | sqlite/btree.c:3829-3858 | the page after the last, over a map page and over the pending page; a data page exactly unless that map page is directly before the pending page |
| Freelist.FreeList.AllocatePage | sqlite/btree.c:3647-3858 | from the list while it has pages, else from the end of the file, with what either promises; without an exact search the first trunk, or its leaf nearest the page wanted |
| Freelist.FreeMisleading | sqlite/btree.c:3865-3928 | after freeing a page whose third word is a leaf of the full first trunk, the search for that leaf is misled |
| Freelist.MisledRun | sqlite/btree.c:3647-3928 | in an auto-vacuum file, for every trunk capacity and every layout of map pages, a run of frees of data pages from the empty list after which an exact search ruins the list |
| Freelist.MapBeforePending | sqlite/btree.c:3829-3858 | pages of 2048 bytes with 54 reserved have a map page directly before the pending page |
| VacuumSize.MapEntries | sqlite/btree.c:755-808 | every data page but the first has its own entry, inside its map page |
| VacuumSize.FirstCutExact | sqlite/btree.c:2386-2391 | with the entries a map page really has, the estimate takes off as many data pages as are free |
| VacuumSize.ReservedBytes | sqlite/btree.c:2386-2394 | with entries counted from the whole page size it never takes off too much, and enough exactly under a condition on sizes that is known beforehand |
| VacuumSize.NoReservedBytes | sqlite/btree.c:2386-2394 | without reserved bytes that condition always holds |
| VacuumSize.ReservedCutWrong | sqlite/btree.c:2386-2394 | it fails for pages of 512 bytes with twelve reserved, 310 pages, 106 of them free |
| VacuumSize.FirstTaken | sqlite/btree.c:763-771 | as the unsigned difference wraps around, page 1 is taken for a map page exactly if the pages of a group divide 2^32 - 1 |
| VacuumSize.FirstTakenAt | sqlite/btree.c:763-771 | so it is for pages of 4096 bytes with 242 to 246 reserved |
| VacuumSize.FinalSize | sqlite/btree.c:2380-2397 | the final size is neither a map page nor the pending page, is less than the size, keeps room for all live pages, and is exact under the condition above; it is zero exactly if only page 1 would be kept and is taken for a map page |
| VacuumMove.Shared.SetChildPtrmaps | sqlite/btree.c:2160-2196 | an entry for every child and first overflow page of a page, and no other change |
| VacuumMove.Shared.ModifyPagePointer | sqlite/btree.c:2211-2256 | fails exactly if there is no such pointer, and then changes nothing; else the one pointer to the page leads to its new place |
| VacuumMove.Shared.RelocatePage | sqlite/btree.c:2263-2331 | the page has its new number everywhere, and the pointer map is again the inverse of all pointers |
| VacuumMove.MovedEntry | sqlite/btree.c:2263-2331 | every page's entry is right after the move |
| VacuumRun.EnoughPlaces | sqlite/btree.c:2399-2441 | there are free places below the cut for all live pages beyond it |
| VacuumRun.FindPlace | sqlite/btree.c:2425-2437 | the search for a free place within the final size ends with one |
| VacuumRun.AutoVacuumCommit | sqlite/btree.c:2340-2468 | all pages are within the final size under new numbers, root pages under their old ones, contents the same with pointers renamed, the pointer map right; the free pages lost are as many as the file is too long, none exactly under the condition above; with a final size of zero nothing is moved or cut, and all free pages are lost; it fails only if the last page is taken for a map page or a root page is beyond the cut |
| HashTable.InBucket | sqlite/hash.c:242-262 | elements with a key are all in the bucket of its hash, a run of the list |
| HashTable.Hash.Splice | sqlite/hash.c:191-213 | the element is linked both ways before another one, or in front |
| HashTable.Hash.InsertElement | sqlite/hash.c:191-213 | every bucket is still a run of the one list, with one element more |
| HashTable.Hash.Rehash | sqlite/hash.c:219-236 | the same elements in buckets of the new size |
| HashTable.Hash.FindElementGivenHash | sqlite/hash.c:242-262 | an element with an equal key, or none exactly if there is none in the whole table |
| HashTable.Hash.RemoveElementGivenHash | sqlite/hash.c:270-302 | just that element is gone from list and bucket; an emptied table is cleared |
| HashTable.Hash.HashFind | sqlite/hash.c:308-318 | the data stored for the key, or none |
| HashTable.Hash.HashInsert | sqlite/hash.c:337-392 | the table as a map from keys is updated, or loses the key; the former data is returned |
| SharedCache.WriteExcludes | sqlite/btree.c:611-650 | one handle's write lock on a table leaves none there to another |
| SharedCache.BtShared.QueryTableLock | sqlite/btree.c:611-650 | granted to a handle that reads without locks and asks to read a table other than the master table; else refused exactly if another handle has a lock on the table and not both are read locks |
| SharedCache.BtShared.LockTable | sqlite/btree.c:658-714 | the handle then has the stronger of its old and the new lock; nobody else's changes |
| SharedCache.BtShared.UnlockAllTables | sqlite/btree.c:722-740 | all locks of the handle are gone, the others in order |
| SharedCache.BtShared.UnlockBtreeIfUnused | sqlite/btree.c:2008-2019 | the file's read lock is kept just while a transaction or a cursor needs it |
| SharedCache.BtShared.BeginTrans | sqlite/btree.c:2092-2151 | when it is refused as read-only or busy at once; else the result over all attempts: they go on while the pager is busy, but if a cursor or transaction holds the read lock only the first counts; a write transaction begins only if the pager gives the write lock; the state of handle and cache in each case |
| SharedCache.BusyStuck | sqlite/btree.c:2119-2137 | a pager that is busy once and then is not: the write transaction begins, but not if a cursor is open |
| SharedCache.BtShared.LockBtreeWithRetry | sqlite/btree.c:1982-1996 | the handle's state is as before, on success the file is locked, and the result is that of the attempts |
| SharedCache.BtShared.OpenCursor | sqlite/btree.c:2751-2822 | the cursor is the first of the list exactly if page 1 is there or can be had |
| SharedCache.BtShared.Commit | sqlite/btree.c:2479-2520 | the handle's transaction and locks end, or if the pager fails nothing changes |
| SharedCache.BtShared.Rollback | sqlite/btree.c:2566-2625 | the handle's transaction and locks end |
| SharedCache.BtShared.CloseHandle | sqlite/btree.c:1701-1765 | the handle is gone with its locks and cursors, those of others are left in order; after the last handle no cursor, transaction or lock on the file is left |
| SharedCache.BtShared.BtreeLockTable | sqlite/btree.c:6595-6612 | a handle that reads without locks may read any table but the master table and gets no lock; else the lock is given exactly if no other handle's stands in its way |
| SharedCache.BtShared.Integrity | sqlite/btree.c:1128-1135 | what the assertions of the code say of every handle follows from the invariant, and one handle at most holds a lock where there is a write lock |
| SharedCache.Run | sqlite/btree.c:1701-2850 | any sequence of operations, handles opened and closed among them, each with its effect (`RunOne`, `Done`), keeps the invariant: exact counts, cache state the furthest of the handles', one writer, compatible locks, cursors of open handles; without handles nothing is left |

## Findings

Where the code does not do what it is for. Each input is given by a lemma or method, and the last column names the
member that says for all inputs when the property holds.

| source | what the code does | input | what is intended | proved by |
|---|---|---|---|---|
| pcre/pcre_dfa_exec.c:1893-1899 | a restart that is not anchored takes the saved states up again at each later position | pattern `ab`, "a" and then "xb": one match (`AbRestarted`; `AbWrong` for any options) | no match, as "axb" has no word that begins at its first byte | RestartExact, RestartGuard |
| pcre/pcre_dfa_exec.c:1830-1877 | a restart without partial matching gives up when the required byte is not in the new piece | pattern `ab.`, "ab" and then "c" (`AbAnyWrong`) | one match, since the "b" was in the first piece | RestartExact, PieceGuard |
| pcre/pcre_dfa_exec.c:1842 | with a known first byte the search for the required byte skips the first byte of the new piece | pattern `ab`, "a" and then "b" (`AbGivenUp`, `AbFirstByteMissed`) | one match | RestartExact, GivesUpRight |
| pcre/pcre_dfa_exec.c:1120 | `?` and `*` (line 1147) look at both cases under any option, by `ims && PCRE_CASELESS` | `a*` with dotall alone, on "A" (`DotallStarIgnoresCase`) | both cases only when caseless | ItemReadsIff |
| pcre/pcre_dfa_exec.c:1270 | a class with a minimum and no maximum is left after one character, as its maximum is stored as zero | `[a]{2,}` on "aaaa" (`OpenRangeMissesLongRuns`) | any number from the minimum on | ItemReadsIff |
| pcre/pcre_dfa_exec.c:590 | zero is returned also when two or more matches fill the vector exactly | n matches, n >= 2, and a vector of 2n | zero only when the vector is too small | ZeroReturned |
| sqlite/btree.c:3779-3824 | a search reads the first leaf of a trunk that has no leaves, and its leaf count becomes the largest number | frees of data pages from page 3 on until the first trunk is full and one more, in an auto-vacuum file, for any capacity (`MisledRun`) | a trunk without leaves is passed by | TakeFromList |
| sqlite/btree.c:3829-3858 | after a map page the next page is taken, even if it is the pending page | pages of 2048 bytes, 54 reserved (`MapBeforePending`) | the pending page is never handed out | TakeFromEnd |
| sqlite/btree.c:4359-4367 | `balance_quick` takes the waiting cell away and leaves the free count at zero | a leaf of 512 bytes with one cell of 102 (`StaleLeaf`) | the count is that of the free bytes | Forget |
| sqlite/btree.c:2386-2394 | the map pages to go are counted with `pgsz/5` entries, though they have `usableSize/5`; free pages that stay are forgotten | pages of 512 bytes with 12 reserved, 310 of them, 106 free (`ReservedCutWrong`) | the file is cut to its live pages | ReservedBytes, AutoVacuumCommit |
| sqlite/btree.c:763-771 | below page 2 the difference wraps around, and page 1 can be taken for a map page: the file is then not cut, its free pages are forgotten, and a file of one page cannot be committed | pages of 4096 bytes with 242 to 246 reserved (`FirstTakenAt`) | page 1 is no map page | FirstTaken, FinalSize, AutoVacuumCommit |
| sqlite/btree.c:2119-2137 | `rc` is not reset: with page 1 held by an open cursor, a busy pager is not asked again, though the busy handler waits | one cursor, and a pager that is busy once (`BusyStuck`) | the pager is asked again as long as the busy handler says so | BeginTrans |
| sqlite/btree.c:4741 | `szNew` of every page but the last is two more than the space used | any division into two pages or more | the space used on the page | Fill |

## Left out

- PCRE: assertions, anchors, word boundaries, conditions, recursion, once-only groups, callouts, back references and Unicode properties in the DFA matcher; UTF-8 mode of the DFA matcher (the UTF-8 functions are modelled on their own).
- PCRE: the parser of pattern text, which this model replaces by the encoder's output; `firstline`, `startline` and the study bitmap; checking of arguments; the backtracking matcher.
- PcreDfaExec.Outcome: says of a run without room that the workspace is below a bound, not that every workspace below the bound fails.
- SQLite: the pager, its journal, the operating system layer and failures of memory or disk, except the pager's results in `FillInCell`, `BeginTrans` and `Commit`.
- SQLite: `balance_deeper`, `balance_shallower` and the virtual root; the 100 bytes of file header on page 1; `balance`'s recursion from a page to its parent.
- SQLite: `sqlite3BtreeInsert` and `sqlite3BtreeDelete` as wholes, creation and removal of tables, and the integrity checker's own code.
- BalanceNonroot.Balance: does not write the pointer map; the freeing of unused old pages is left to the caller's list of spare pages; page numbers and sizes are assumed to fit their fields.
- VacuumSize.FirstTaken: the product that wraps around is one of signed integers in C; the usual two's complement result is taken.
- BalanceQuick.Quick: does not go on to balance the parent; the pointer map is not written.
- BtreeCursor.BtCursor.MoveTo: pages are values of a tree, so a cursor that is made invalid by a change of the tree and has to be restored is not modelled.
- Freelist.FreeList.AllocatePage: page numbers are below 2^31 as in the signed differences of the search for the closest leaf; checks for a corrupt file are left out.
- VacuumMove.Shared.RelocatePage: a page is its pointers and the rest of its contents; the bytes are those of `MemPage` and are not joined with it.
- HashTable.Hash.HashInsert: keys are compared by a normal form given with the key class; copied keys and failing allocation are left out.
- SharedCache.BtShared.BeginTrans: the pager's answers are given as a sequence, one for each time the busy handler lets it try again.
