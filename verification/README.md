# avUtils in Dafny

This project models the parts of the avUtils C library that hold real algorithms and proves what
they promise. A loop, a counter or a buffer of the C code is a loop, a field or an array here; each
method is proved against a mathematical description of its result, and the description is where the
properties over all inputs and all runs are proved. `dafny verify dfyconfig.toml` checks everything.

## What is modelled

**Paged dynamic array** (`PageChain`, `PageMemory`, `DynamicArrays`). `PageChain` sees the array as a
chain of pages, each with its elements and its number of slots; the shape kept by every operation is
full pages, then at most one partly filled page, then empty pages. Because `getPage` looks elements
up by capacity, that shape is exactly what makes indexing right. Every run of the operations refines
a plain sequence. `DynamicArrays` is the object with its counters and its doubly linked page records
(`PageMemory`), updated in place.

**Search, replace and split** (`StringSearch`, `StringSplit`). `avStringFindCount` has no fallback
and may count fewer occurrences than there are; `avStringFindFirstOccuranceOf` accepts a start of
the pattern that the string ends with. Replace and Split size their output with the one and fill it
with the other. An exchange argument shows that this never goes wrong: a list of disjoint
occurrences is never longer than the leftmost greedy one.

**Paths** (`Paths`, `PathMeaning`). The meaning of a path is its net effect: so many levels out, and
then down. Normalisation keeps it for every absolute path, and for a relative path exactly when that
climbs at most one level.

**Tokenizer**. `Tokenizer` holds the rules and when each is partial, complete, overrun or invalid;
`TokenizerRun` says what a table of rules makes of an input; `TokenizerLoop` is the loop with its
table of states, its array of completions and its index that jumps backwards, proved to end and to
compute just that for every table. `TokenizerSlots` proves which rules can use up the array of
completions, `TokenizerEscapes` when escaped ends are told from free ones, `TokenizerLongest` that the
rule that matches furthest makes the token in every table of rules that cannot repeat,
`TokenizerRanges` which characters ranges take and how far they reach, and `TokenizerMunch` that exact
rules are maximal munch.

**Debug registry** (`DebugRegistry`). The sparse set of live string memories over two inverse
permutations, with growth and swap-remove.

**Reference-counted strings** (`StringMemory`, `StringHeap`). Worlds of string variables and the
memories behind them, steps between worlds, runs of steps, and the object that performs the steps.

**Allocators** (`PageAllocator`, `DynamicAllocators`, `LinearAllocator`, with `Bits` and
`Addresses`). Blocks cut off pages or laid one behind the other in an arena, as machines with runs
and as objects. `Bits` holds masks, the power-of-two test and `nextPow2`.

**Copying and filling by words** (`MemoryWords`) and **printing and scanning** (`Streams`, `Printf`,
`PrintFormat`, `PrintMeaning`): the machine over the format string with all its conversions, widths and
zero padding, and what each conversion shows, told from its argument and the characters alone.

Addresses, bytes and words are natural numbers; where the code masks, wraps or truncates, the model
says so (`& 7`, `% UINT32`, `Complement`). A heap is a map from the addresses in use to records, so
that a freed record is gone and cannot be read or freed again.

## Where the code does less than its names and comments promise

The model follows the code, and the exact condition under which the promise is kept is proved.

- `avStringFindCount` counts all disjoint occurrences in every string if and only if the pattern
  repeats a single character (`CountExactIff`); otherwise the pattern with its first character
  doubled is a string on which it fails (`ScanStumbles`). Replace is complete on every string under the
  same condition (`ReplacesAllIff`).
- `avStringFindFirstOccuranceOf` answers with a position although the pattern does not occur if and
  only if a long enough string ends with a start of the pattern (`FirstHitExactIff`,
  `FirstHitOvershoots`).
- `avStringSplit` answers with the number of parts. `avStringSplitOnChar` does so if and only
  if the separator is missing or, where it is NUL, all characters but one are NUL (`SplitAnswerIff`): it
  answers 1 for "a" and for "a,b" (`SplitAnswerHere`).
- Normalising a relative path that climbs two levels or more loses an even number of them
  (`RelativeMeaningIff`, `RelativeMeaningLost`).
- A path whose normal form is empty fails an assertion. Where assertions are off, normalisation
  leaves it as it was if and only if the variable has no memory of its own and the path is relative
  and goes nowhere or out an even number of levels (`NormalizedIff`), such as a literal "a/.."
  (`NormalizedHere`).
- `avStringFromMemory` and `avStringCopySection` into a variable that is still backed lose a
  reference; when exactly is `FromMemoryConservesIff` and `CopySectionConservesIff`, and
  `FromMemoryLoses` and `CopySectionLoses` are worlds in which they do.
- `avStringReplace` binds its result to the destination if and only if that was not backed or nothing was
  counted. Otherwise the destination stays as it was and the result is left on the heap without a
  variable (`ReplaceBindsIff`, `ReplaceLeaks`).
- `avStringMove` carries the text over if and only if source and destination are two variables
  (`MoveMeans`); a literal moved onto itself becomes empty.
- The tokenizer allocates one slot a rule for completions, but a range rule can break off, come back
  and break off again. A rule breaks off at most once on every input if and only if it cannot repeat
  (`BreaksOnceIff`): it has no set or no end, or its body may open with nothing but its end. The slots
  suffice beside every exact rule, for every input, under the same condition (`SafeBesideIff`), and for
  every table of rules that cannot repeat (`ScanFits`). `RunsOutHere` is a table of two rules that makes
  three completions; the write that has no slot is the answer `OutOfSlots`, and nothing is said about what
  the C program does behind it.
- A range with escapes should end with the first end that no backslash escapes. It does, character by
  character, if and only if every end up to there is judged rightly (`EndsRightlyIff`): the code takes
  an end for escaped exactly if a backslash stands before it and neither the start of the body nor
  another end lies fewer than two characters back (`TakenMeans`). A rule is right on every input if and
  only if it has no escapes or its end is a backslash (`AlwaysRightIff`). An escaped quote right behind
  the opening one ends a string (`EscapedEndTaken`), and the quote behind an escaped backslash does not
  (`FreeEndPassed`).
- With exact rules, the text of a token reaches to where the last rule broke off, which may be behind
  the match, although scanning goes on right behind the match. The two are the same exactly if no rule
  goes on behind the match (`TextIsMatchIff`), and for every input exactly if every start of a rule text
  that goes on behind a rule text is a rule text itself (`TextsAreMatchesIff`); `TextRunsOver` is a table
  and an input.
- A text that exact rules started but none finished is dropped when it breaks off at white space or at the
  end. Nothing is ever dropped if and only if the first character of every rule text is a rule text
  itself (`NothingDroppedIff`); otherwise such a character alone is dropped (`FirstAloneDropped`,
  `TextDropped`).
- `avDynamicArrayAppend` moves pages without bringing the last page and the page count up to date. It
  leaves a valid array valid if and only if nothing was appended or the array had no elements. The chain
  reads as the one array followed by the other if and only if no pages were moved into it before
  (`Append`); a second Append cuts off what the first moved in (`LostBySecondAppend`). An Add appends its
  element if and only if there is a free slot, and otherwise cuts it off as well (`AddAppended`,
  `LostAfterAppend`). `MakeContiguous` repairs the array.
- `avDynamicArrayAppend` calls the callback for elements that are given up with the elements appended,
  although the array now holds them, if and only if it had to copy them (`Append`, `ReleasedByAppend`).
- A quoted text that is never ended ends the scan without an error, and is dropped with all that follows
  it; one that is ended makes a token up to its first end (`QuotedTokens`).
- `%i` prints every argument rightly except those from the least one of its width on, and those that
  do not fit the width (`IntPrintedIff`); the least one prints as `-0`.
- Zero padding goes through a buffer of 64 characters and stays inside if and only if the width is at most
  64 (`ZerosFitIff`); `%065u` runs over it (`ZerosRunOver`).
- `%u` of `avStringScanf` passes over anything that is not a digit and wraps (`ScanUint`). A row of
  digits is scanned as what it denotes if and only if that is below 2^32 (`ScanExactIff`). As long as
  nothing wraps, a text is scanned as the number it starts with if and only if no digit stands behind
  that number or all digits are zeros (`ScanLeadingIff`); and wrapping or not, every number comes out
  right in front of a tail if and only if the tail has no digit (`TailHarmlessIff`). `ScanHere` has a
  failing text of either kind.
- The linear allocator accepts exactly the requests for which it has a place, unless the end of a request
  wraps around 2^64 and lands inside the arena; then it accepts one for which it has none (`PlacedWell`,
  `OverflowsHere`).
- The power-of-two test of the linear allocator passes for zero too, and only for zero (`PowerTest`).
- `alignUp` answers 0 for the seven sizes above the last multiple of eight, and rightly for all others
  (`AlignUpLeast`).

## Model

| member | source | states |
|---|---|---|
| PageChain.LocateAt | src/dataStructures/avDynamicArray.c:166-183 | the walk by capacity stops at exactly the page and slot whose preceding capacity adds up to the index |
| PageChain.LocateSplits | src/dataStructures/avDynamicArray.c:166-183 | the page and slot found account for the whole index, and a walk off the end means the index is beyond the capacity |
| PageChain.LocateElement | src/dataStructures/avDynamicArray.c:166-183 | on a well-formed chain the slot found for an index in range holds that element of the sequence |
| PageChain.LocateBeyond | src/dataStructures/avDynamicArray.c:248-263 | an index past the last element never finds a slot in use |
| PageChain.LocateEnd | src/dataStructures/avDynamicArray.c:197-210 | the page found for the element count has its own count as the slot and only empty pages behind it; there is none exactly if every slot is in use |
| PageChain.AddKeeps | src/dataStructures/avDynamicArray.c:197-210 | adding keeps the shape, appends one element, and creates a page only if there was no free slot |
| PageChain.AddAllKeeps | src/dataStructures/avDynamicArray.c:212-229 | adding a range keeps the shape and appends the range |
| PageChain.WriteKeeps | src/dataStructures/avDynamicArray.c:231-246 | a write in range replaces exactly that element, and out of range changes nothing |
| PageChain.ReadRefines | src/dataStructures/avDynamicArray.c:248-263 | reading succeeds exactly below the element count and gives that element |
| PageChain.RemoveKeeps | src/dataStructures/avDynamicArray.c:265-299 | removing keeps the shape, deletes exactly the indexed element, and gives up one slot exactly if elements follow in the next page |
| PageChain.ClearKeeps | src/dataStructures/avDynamicArray.c:314-323 | clearing empties the sequence and keeps every slot |
| PageChain.ReserveKeeps | src/dataStructures/avDynamicArray.c:325-338 | reserving changes no element and leaves room for that many more |
| PageChain.FreeHereFits | src/dataStructures/avDynamicArray.c:325-338 | the free slots that Reserve counts are really free |
| PageChain.AddAllInPlace | src/dataStructures/avDynamicArray.c:197-229 | elements that fit the free slots are added without creating or resizing a page |
| PageChain.ReserveThenAdd | src/dataStructures/avDynamicArray.c:325-338 | after reserving n slots the next n additions create no page, whatever the grow size |
| PageChain.TrimKeeps | src/dataStructures/avDynamicArray.c:403-421 | trimming keeps the sequence and ends with capacity equal to count |
| PageChain.TrimStep | src/dataStructures/avDynamicArray.c:407-420 | each round of the trimming loop goes towards the same trimmed chain |
| PageChain.ContiguousKeeps | src/dataStructures/avDynamicArray.c:434-452 | one page with the same sequence and the same capacity |
| PageChain.AppendKeeps | src/dataStructures/avDynamicArray.c:454-480 | a chain hung behind a trimmed one is well formed and reads as the one followed by the other, with capacities adding up |
| PageChain.AddedWhere | src/dataStructures/avDynamicArray.c:197-210 | the element goes into the first page with a free slot, or into a new page of the grow size behind all others |
| PageChain.ReservedWhere | src/dataStructures/avDynamicArray.c:325-338 | a page is opened exactly for what the first page with a free slot has no room for |
| PageChain.WrittenWhere | src/dataStructures/avDynamicArray.c:231-246 | one slot of one page changes |
| PageChain.RemovedWhere | src/dataStructures/avDynamicArray.c:286-298 | one page changes: it keeps its slots, or loses one, or goes away, as elements follow in the next page or not |
| PageChain.TrimmedWhere | src/dataStructures/avDynamicArray.c:403-421 | the pages up to the last one with elements stay, each cut to its elements |
| PageChain.CutLoses | src/dataStructures/avDynamicArray.c:454-480 | the pages up to a cut and one more element are never the whole sequence and that element |
| PageChain.AppendLoses | src/dataStructures/avDynamicArray.c:473-474 | the pages up to a cut and another chain are never the whole sequence and that of the other chain |
| PageChain.BehindFull | src/dataStructures/avDynamicArray.c:407-412 | a page with elements somewhere behind it is full, which is where trimming stops |
| PageChain.ApplyRefines | src/dataStructures/avDynamicArray.c:197-452 | each operation keeps the shape and does to the sequence what its plain counterpart does |
| PageChain.RunRefines | src/dataStructures/avDynamicArray.c:197-452 | over every run of the operations the chain keeps its shape and reads as the plain sequence |
| PageMemory.HungKeeps | src/dataStructures/avDynamicArray.c:50-67 | hanging a page behind the last one keeps the double links and adds its view |
| PageMemory.UnlinkedKeeps | src/dataStructures/avDynamicArray.c:69-92 | taking a page out joins its neighbours both ways and drops exactly its view |
| PageMemory.UpdateKeeps | src/dataStructures/avDynamicArray.c:94-114 | changing the contents of one page record keeps the links and changes only that page of the chain |
| PageMemory.TiedKeeps | src/dataStructures/avDynamicArray.c:473-474 | tying two chains together gives a doubly linked chain that shows the one followed by the other |
| PageMemory.HungInside | src/dataStructures/avDynamicArray.c:50-67 | a page hung behind a page that is not the last one cuts off all that came after it |
| PageMemory.TiedInside | src/dataStructures/avDynamicArray.c:473-474 | a chain tied behind a page that is not the last one cuts off all that came after it |
| DynamicArrays.DynamicArray.Create | src/dataStructures/avDynamicArray.c:116-131 | no array for elements of size zero, otherwise an empty array with the slots asked for |
| DynamicArrays.DynamicArray.AddPage | src/dataStructures/avDynamicArray.c:50-67 | a new empty page behind the others, or none for zero slots; links, counts and last page stay right |
| DynamicArrays.DynamicArray.RemovePage | src/dataStructures/avDynamicArray.c:69-92 | exactly that page leaves the chain, and the counters go down by its own |
| DynamicArrays.DynamicArray.ResizePage | src/dataStructures/avDynamicArray.c:94-114 | the page, grown or shrunk, keeps as many elements as fit, or leaves the chain when it has no slots left |
| DynamicArrays.DynamicArray.GetPage | src/dataStructures/avDynamicArray.c:166-183 | the loop over the page records finds what the walk by capacity finds |
| DynamicArrays.DynamicArray.Add | src/dataStructures/avDynamicArray.c:197-210 | the sequence grows by the element, which has the index returned; the counters match the pages |
| DynamicArrays.DynamicArray.AddRange | src/dataStructures/avDynamicArray.c:212-229 | the sequence grows by the range, whose first index is returned |
| DynamicArrays.DynamicArray.Write | src/dataStructures/avDynamicArray.c:231-246 | succeeds exactly below the count, and replaces exactly that element |
| DynamicArrays.DynamicArray.Read | src/dataStructures/avDynamicArray.c:248-263 | succeeds exactly below the count, and gives that element of the sequence |
| DynamicArrays.DynamicArray.ReadRange | src/dataStructures/avDynamicArray.c:361-377 | copies the elements that are there, answers how many, and leaves the rest of the buffer alone |
| DynamicArrays.DynamicArray.RemoveSlot | src/dataStructures/avDynamicArray.c:286-298 | moves the elements behind down by one and shrinks the page or its count |
| DynamicArrays.DynamicArray.Remove | src/dataStructures/avDynamicArray.c:265-299 | succeeds exactly below the count, the index for the last element included, deletes exactly that element and gives it to the callback |
| DynamicArrays.DynamicArray.ClearPage | src/dataStructures/avDynamicArray.c:301-312 | every slot of the page holds the fill element or zero, and none is counted |
| DynamicArrays.DynamicArray.Clear | src/dataStructures/avDynamicArray.c:314-323 | the sequence is empty, the pages stay, and every slot is filled, also behind an Append that moved pages |
| DynamicArrays.DynamicArray.Reserve | src/dataStructures/avDynamicArray.c:325-338 | nothing is added, that many slots are free, and the assertion on the remaining space holds |
| DynamicArrays.DynamicArray.Trim | src/dataStructures/avDynamicArray.c:403-421 | the sequence stays and the capacity becomes the count; behind an Append that moved pages nothing is trimmed |
| DynamicArrays.DynamicArray.MakeContiguous | src/dataStructures/avDynamicArray.c:434-452 | one page holds the same sequence with the same capacity, every old page is freed once, and the array is valid even if Append had left it otherwise |
| DynamicArrays.DynamicArray.Append | src/dataStructures/avDynamicArray.c:454-480 | the chain reads as this array followed by the other exactly if no pages were moved in before; a valid array stays valid exactly if nothing was appended or it had no elements; the callback gets the elements exactly if they were copied |
| DynamicArrays.DynamicArray.AppendLinked | src/dataStructures/avDynamicArray.c:473-476 | the pages of the other array follow the last page known, and whatever was behind that is cut off |
| DynamicArrays.DynamicArray.AddAppended | src/dataStructures/avDynamicArray.c:197-210 | adding behind moved pages appends the element exactly if there is a free slot, and otherwise the pages moved in are no longer reached |
| DynamicArrays.DynamicArray.AddBehindStale | src/dataStructures/avDynamicArray.c:50-67 | a page opened behind the stale last page follows it directly |
| DynamicArrays.LostAfterAppend | src/dataStructures/avDynamicArray.c:454-480 | two arrays of one element and an addition after which the element appended is gone |
| DynamicArrays.LostBySecondAppend | src/dataStructures/avDynamicArray.c:454-480 | two Appends after which the element appended first is gone |
| DynamicArrays.ReleasedByAppend | src/dataStructures/avDynamicArray.c:462-471 | an element that is held and has been given to the callback |
| DynamicArrays.DynamicArray.Destroy | src/dataStructures/avDynamicArray.c:144-162 | the callback gets every element once, in order, and every page is freed, reading each link before its page goes |
| StringSearch.MatchesAtMeans | src/string/avString.c:521-538 | an occurrence is where the pattern stands between what is in front and what is behind |
| StringSearch.FindCount | src/string/avString.c:540-558 | counts what the scan without fallback completes |
| StringSearch.GreedyIsOptimal | src/string/avString.c:540-558 | no list of disjoint occurrences is longer than the leftmost greedy one |
| StringSearch.GreedyMonotone | src/string/avString.c:804-820 | searching from further on never finds more |
| StringSearch.ScanAtMostGreedy | src/string/avString.c:540-558 | from any state of the scan, it completes no more matches than the greedy choice has left |
| StringSearch.CountAtMostGreedy | src/string/avString.c:540-558 | the count never exceeds the number of leftmost greedy occurrences |
| StringSearch.CountExactIff | src/string/avString.c:540-558 | the count is right for every string exactly if the pattern repeats one character |
| StringSearch.ScanStumbles | src/string/avString.c:540-558 | for any other pattern a string in which it occurs and none is counted |
| StringSearch.CountWhole | src/string/avString.c:540-558 | a string that begins with the pattern has one match, and those of the rest |
| StringSearch.CountBroken | src/string/avString.c:545-556 | a start of the pattern that goes on wrongly is lost with the character at which it does, and the rest counts by itself |
| StringSearch.CountStart | src/string/avString.c:540-558 | a start of the pattern alone counts nothing |
| StringSearch.CountsHere | src/string/avString.c:540-558 | an occurrence behind a wrong start that is counted, and one inside a wrong start that is not |
| StringSearch.FindFirst | src/string/avString.c:521-538 | the first position at which all of the pattern that the string has room for agrees |
| StringSearch.FirstHitIsNext | src/string/avString.c:521-538 | when the pattern occurs the answer is its leftmost occurrence |
| StringSearch.FirstHitExactIff | src/string/avString.c:521-538 | the answer is right exactly unless the pattern is missing and the string ends with a start of it |
| StringSearch.FirstHitOvershoots | src/string/avString.c:527-531 | a string in which a missing pattern is found |
| StringSearch.FirstHitTail | src/string/avString.c:527-531 | where the pattern is missing the answer is the longest start of it that the string ends with |
| StringSplit.Store | src/string/avString.c:388-406 | writes the part that fits behind the offset and nothing else |
| StringSplit.StoredAt | src/string/avString.c:388-406 | character by character: what is stored stops at the end of the memory, of the string or of the length |
| StringSplit.JoinPieces | src/string/avString.c:1047-1073 | cutting at occurrences and joining with the same separator is the identity |
| StringSplit.PiecesCount | src/string/avString.c:784-829 | as many cuts as asked for can be made, up to the greedy count |
| StringSplit.PiecesFree | src/string/avString.c:1047-1073 | no piece but the last contains the separator, and the last one neither if every cut was made |
| StringSplit.ReplacedLength | src/string/avString.c:794-795 | the computed length is the length of the result, and the subtraction does not wrap |
| StringSplit.NextPiece | src/string/avString.c:804-820 | while counted occurrences remain, the matcher finds a true one inside the string |
| StringSplit.ReplaceRound | src/string/avString.c:804-820 | every round stays inside both buffers and goes towards the same result |
| StringSplit.Replace | src/string/avString.c:784-825 | the memory that is to be bound holds the string with the first counted greedy occurrences replaced, filled exactly |
| StringSplit.PiecesFirst | src/string/avString.c:804-820 | the first cut is at the leftmost occurrence, and the rest is cut by itself |
| StringSplit.ReplacedFirst | src/string/avString.c:784-829 | what is in front of the leftmost occurrence is kept, the replacement follows, and so on with one less to go |
| StringSplit.UncutParts | src/string/avString.c:789-792 | with nothing counted the string stays as it is, and is the only part |
| StringSplit.ReplaceHere | src/string/avString.c:784-829 | a string in which an occurrence is replaced, and one in which it is left alone |
| StringSplit.Split | src/string/avString.c:1047-1073 | the array holds the pieces, and the answer is their number |
| StringSplit.SplitRoundTrip | src/string/avString.c:1047-1073 | the parts interleaved with the separator give the string back, there is one more than counted, and none but the last contains the separator |
| StringSplit.SplitByNothing | src/string/avString.c:1047-1073 | the empty separator cuts off an empty part for every character and then the whole string |
| StringSplit.FindCharCount | src/string/avString.c:492-500 | counts the positions that hold the character |
| StringSplit.CharCountIsGreedy | src/string/avString.c:492-500 | for a single character counting and greedy choosing agree, so no cut is missed |
| StringSplit.SplitOnChar | src/string/avString.c:1018-1045 | the array holds the pieces and blanks behind them, with the answer the code gives |
| StringSplit.SplitOnCharRoundTrip | src/string/avString.c:1018-1045 | the parts interleaved with the character give the string back, and none contains it |
| StringSplit.ReplacesAllIff | src/string/avString.c:784-829 | replacing the counted occurrences is replacing every greedy one, for every string and replacement, exactly if the pattern repeats one character |
| StringSplit.PiecesOfJoin | src/string/avString.c:1047-1073 | joining pieces with a character that none contains and cutting there again gives the pieces back |
| StringSplit.ReplaceUndone | src/string/avString.c:784-829 | a replacement by a character that the string does not contain is undone by replacing it back |
| StringSplit.SplitAnswerIff | src/string/avString.c:1018-1045 | the answer is the number of parts exactly if the separator is missing or, where it is NUL, all characters but one are NUL; otherwise one less, or the length for NUL |
| StringSplit.SplitAnswerHere | src/string/avString.c:1018-1045 | the same answer for one part and for two |
| Paths.Collect | src/string/avString.c:1172-1221 | the scan visits the longest separator-free stretches in order and keeps the reduced stack |
| Paths.PrintStack | src/string/avString.c:1223-1247 | the printing loop puts one separator between segments and one in front of an absolute path |
| Paths.Normalize | src/string/avString.c:1155-1252 | the print of the reduced segments, or the path itself if that is empty and the variable has no memory |
| Paths.SegmentsOfSlashed | src/string/avString.c:1172-1187 | cutting a printed stack gives the stack back |
| Paths.SegmentsSeparator | src/string/avString.c:1174-1177 | a slash or a backslash in front is passed over |
| Paths.SegmentsWord | src/string/avString.c:1179-1187 | a stretch without either, up to the end or to one of them, is the next segment |
| Paths.PrintMeans | src/string/avString.c:1223-1247 | one slash between segments, and one in front of an absolute path |
| Paths.ReduceConcat | src/string/avString.c:1172-1221 | reducing one list of segments after another is reducing them together |
| PathMeaning.ThenAssociates | src/string/avString.c:1206-1217 | net effects of walks compose |
| PathMeaning.NetOfMore | src/string/avString.c:1201-1220 | one segment further: a name goes in, ".." goes back out, "." stays |
| PathMeaning.AbsoluteReduce | src/string/avString.c:1201-1220 | the stack of an absolute path is the directory its segments denote, where climbing out of the root stays there |
| PathMeaning.RelativeReduce | src/string/avString.c:1206-1217 | on a relative path every second level climbed cancels the one before |
| PathMeaning.StackCanonical | src/string/avString.c:1172-1221 | no "." is left, and ".." at most once, at the bottom of a relative path |
| PathMeaning.NormalSegments | src/string/avString.c:1223-1247 | the segments of a normal form are the reduced stack |
| PathMeaning.AbsoluteNormal | src/string/avString.c:1155-1252 | the normal form of an absolute path is the print of the directory it denotes, and denotes it too |
| PathMeaning.AbsoluteNormalEqualIff | src/string/avString.c:1155-1252 | two absolute paths have the same normal form exactly if they denote the same directory |
| PathMeaning.NormalIdempotent | src/string/avString.c:1155-1252 | normalising twice is normalising once, on every path |
| PathMeaning.RelativeMeaningIff | src/string/avString.c:1206-1217 | the normal form of any relative path means the same exactly if it climbs at most one level |
| PathMeaning.RelativeMeaningLost | src/string/avString.c:1206-1217 | a path on which two levels are lost |
| PathMeaning.EmptyNormalIff | src/string/avString.c:1223-1252 | the normal form is empty exactly for relative paths that go nowhere or out an even number of levels |
| PathMeaning.NormalizedIff | src/string/avString.c:1155-1252 | an empty normal form fails to replace the path exactly if the variable has no memory |
| PathMeaning.NormalizedHere | src/string/avString.c:1155-1252 | a path that stays what it was |
| PathMeaning.FindLastSlash | src/string/avString.c:466-473 | the last slash, or none |
| PathMeaning.DirectoryMeans | src/string/avString.c:1266-1276 | the directory part ends with the last slash, if there is one |
| PathMeaning.ResolveRelative | src/string/avString.c:1255-1290 | normalises the relative path behind the directory part of the base, or alone if it is absolute, empty strings included |
| PathMeaning.SegmentsJoined | src/string/avString.c:1274-1278 | a separator at the seam keeps the segments of both sides apart |
| PathMeaning.ResolveContinues | src/string/avString.c:1255-1290 | the result continues the walk from the base directory, for absolute and relative bases |
| PathMeaning.ResolveAbsolute | src/string/avString.c:1256-1260 | against any base an absolute path is the directory it denotes by itself |
| PathMeaning.PathsHere | src/string/avString.c:1155-1290 | a path with separators of both kinds, and an absolute and a relative path against a base |
| Tokenizer.CheckString | src/parsing/avTokenizer.c:17-35 | tells how a text compares with what was seen: partial, complete, overrun or invalid |
| Tokenizer.EndIsLast | src/parsing/avTokenizer.c:44-63 | a complete end is the first one in the body and lies at its end |
| Tokenizer.CheckEndsWith | src/parsing/avTokenizer.c:44-63 | ends on every input and agrees with the reference although its matcher accepts a start of the end at the tail |
| Tokenizer.TestRangeRule | src/parsing/avTokenizer.c:65-122 | agrees with the declarative state of a range rule, although it searches the end anew before every character |
| Tokenizer.FirstCharFits | src/parsing/avTokenizer.c:37-134 | no rule overruns on the first character of a token |
| TokenizerEscapes.TakenState | src/parsing/avTokenizer.c:44-63 | the state of the end is that of the end the code takes |
| TokenizerEscapes.TakenMeans | src/parsing/avTokenizer.c:50-53 | the end taken is the first one that is not noticed to be escaped |
| TokenizerEscapes.TakenIsFreeIff | src/parsing/avTokenizer.c:44-63 | it is the first free end exactly if the ends up to that are judged rightly |
| TokenizerEscapes.EndsRightlyIff | src/parsing/avTokenizer.c:44-63 | a body read character by character ends where it should exactly if its ends are judged rightly |
| TokenizerEscapes.MisleadingEnd | src/parsing/avTokenizer.c:50-53 | for any end but a backslash a body whose escaped end is not noticed |
| TokenizerEscapes.AlwaysRightIff | src/parsing/avTokenizer.c:50-53 | ranges end where they should on every input exactly if there are no escapes or the end is a backslash |
| TokenizerEscapes.CompleteIff | src/parsing/avTokenizer.c:65-122 | where the ends are judged rightly, as without escapes, a range is complete exactly on a delimited text whose first free end is at its end |
| TokenizerEscapes.EscapedEndTaken | src/parsing/avTokenizer.c:50-53 | an escaped quote behind the opening one ends the token |
| TokenizerEscapes.FreeEndPassed | src/parsing/avTokenizer.c:50-53 | a quote behind an escaped backslash is passed over |
| TokenizerRun.LastBreakMeans | src/parsing/avTokenizer.c:222-242 | something was recorded exactly if some rule broke off, and none did behind the last break |
| TokenizerRun.LastBreakLate | src/parsing/avTokenizer.c:285 | the last break never lies on the first character, so a token takes up some input |
| TokenizerRun.FailedStays | src/parsing/avTokenizer.c:200-210 | a rule that has failed stays so for the rest of the token |
| TokenizerSlots.BreaksOnce | src/parsing/avTokenizer.c:222-227 | a rule that cannot repeat breaks off at most once, and is overrun or invalid from then on |
| TokenizerSlots.RecordsByRule | src/parsing/avTokenizer.c:222-227 | what is recorded character by character is what the rules break off, summed rule by rule |
| TokenizerSlots.SlotsSuffice | src/parsing/avTokenizer.c:168 | the completions of a token never exceed one slot a rule, in a table of rules that cannot repeat |
| TokenizerSlots.ScanFits | src/parsing/avTokenizer.c:168 | for such a table the whole scan never lacks a slot, whatever the input |
| TokenizerSlots.RepeatsOn | src/parsing/avTokenizer.c:65-122 | a text on which a rule that can repeat breaks off twice |
| TokenizerSlots.BreaksOnceIff | src/parsing/avTokenizer.c:65-122 | a rule breaks off at most once on every input exactly if it cannot repeat |
| TokenizerSlots.RunsOut | src/parsing/avTokenizer.c:222-227 | beside the exact rule for that text a rule that can repeat uses up the slots |
| TokenizerSlots.SafeBesideIff | src/parsing/avTokenizer.c:168 | the slots suffice beside every exact rule, for every input, exactly if the rule cannot repeat |
| TokenizerSlots.RunsOutHere | src/parsing/avTokenizer.c:168 | a table of two rules and an input with three completions |
| TokenizerLongest.ReachMeans | src/parsing/avTokenizer.c:199-228 | a rule that cannot repeat goes on exactly up to its reach, and breaks off exactly behind it if it matches |
| TokenizerLongest.TurnMatched | src/parsing/avTokenizer.c:243-289 | the rule that matches furthest makes the token, whose text reaches as far as any rule does; rivals of another type make it ambiguous |
| TokenizerLongest.TurnUnmatched | src/parsing/avTokenizer.c:229-242 | where no rule matches, white space is passed over with what was read before it, and anything else is an error |
| TokenizerLongest.TurnOpen | src/parsing/avTokenizer.c:175-179 | a rule that still goes on at the end of the input leaves no token |
| TokenizerRanges.RangeStates | src/parsing/avTokenizer.c:65-122 | behind its start a range goes on while its characters are taken, has overrun if only a later one is not, and fails if the first is not |
| TokenizerRanges.AllTakenIff | src/parsing/avTokenizer.c:84-117 | taken are the characters of the set without newlines and, with escapes, backslashes and what stands behind an odd number of them |
| TokenizerRanges.ExactReach | src/parsing/avTokenizer.c:17-35 | an exact rule reaches as far as its text and the input agree, and matches if that is the whole text |
| TokenizerRanges.RunReach | src/parsing/avTokenizer.c:65-122 | a set of characters reaches to the end of the run, and matches if that is not empty |
| TokenizerRanges.QuotedReach | src/parsing/avTokenizer.c:65-122 | a text between a start and an end reaches to the first end behind the start |
| TokenizerRanges.RunsAreTokens | src/parsing/avTokenizer.c:151-299 | for a set of characters the tokens are its longest runs; white space between them is passed over, other characters end the scan |
| TokenizerRanges.QuotedTokens | src/parsing/avTokenizer.c:151-299 | for quoted texts a token reaches to the first end, and a text without an end is dropped with all that follows |
| TokenizerRanges.BlankBetween | src/parsing/avTokenizer.c:102-117 | two runs with a blank between them are two tokens |
| TokenizerRanges.DroppedToken | src/parsing/avTokenizer.c:286-288 | a token of the type to be ignored is dropped |
| TokenizerLoop.Advance | src/parsing/avTokenizer.c:195-228 | one character: every rule steps to the state its test gives, and exactly the rules that just broke off are written to the next slots, unless there are too few |
| TokenizerLoop.Select | src/parsing/avTokenizer.c:244-270 | picks a furthest completion, and its collision counter exceeds one exactly if another type reaches as far |
| TokenizerLoop.CompletedMeans | src/parsing/avTokenizer.c:222-227 | what is recorded are exactly the rules that broke off, each with the last character it had matched |
| TokenizerLoop.FurthestIsLast | src/parsing/avTokenizer.c:244-270 | the furthest completion is that of the last rule to break off, and it is rivalled exactly if another type broke off there |
| TokenizerLoop.NoSlot | src/parsing/avTokenizer.c:222-227 | a completion without a slot is where the reference runs out of slots |
| TokenizerLoop.NoneRecorded | src/parsing/avTokenizer.c:229-242 | with nothing recorded the reference passes over white space, ends, or finds no rule |
| TokenizerLoop.SomeRecorded | src/parsing/avTokenizer.c:243-297 | the token and the position to go on from are those of the reference, or the token is ambiguous |
| TokenizerLoop.EndToken | src/parsing/avTokenizer.c:243-289 | the furthest completion becomes a token and the index jumps back to its end, unless another type rivals it |
| TokenizerLoop.ReadChar | src/parsing/avTokenizer.c:175-297 | one round of the loop, with all its ways out, follows the reference |
| TokenizerLoop.Settle | src/parsing/avTokenizer.c:229-297 | once every rule has read a character, the token goes on, begins anew or the scan ends as the reference says |
| TokenizerLoop.Tokenize | src/parsing/avTokenizer.c:151-299 | ends for every table without empty exact texts, and answers as the reference: tokens, ambiguity, no rule, or a lack of slots |
| TokenizerMunch.LongestMatch | src/parsing/avTokenizer.c:244-270 | the length of the longest rule text that the input starts with |
| TokenizerMunch.MatchInside | src/parsing/avTokenizer.c:175-179 | no match reaches into the NUL behind the input, nor behind where the rules break off |
| TokenizerMunch.ExactBreaks | src/parsing/avTokenizer.c:17-35 | an exact rule breaks off exactly one character behind its text |
| TokenizerMunch.StopIsDead | src/parsing/avTokenizer.c:229-243 | a token of exact rules stops exactly where no rule text goes on |
| TokenizerMunch.LastIsLongest | src/parsing/avTokenizer.c:244-285 | the last rules to break off are the longest matches |
| TokenizerMunch.RivalsCollide | src/parsing/avTokenizer.c:257-274 | a token is ambiguous exactly if two longest rules differ in type, and otherwise has their type |
| TokenizerMunch.TurnIsMunch | src/parsing/avTokenizer.c:175-297 | one token of the scan is one token of maximal munch |
| TokenizerMunch.ScanIsMunch | src/parsing/avTokenizer.c:151-299 | for exact rules the whole scan is maximal munch, and the slots always suffice |
| TokenizerMunch.TextIsMatchIff | src/parsing/avTokenizer.c:275-285 | the text of a token is its match exactly if no rule goes on behind the match |
| TokenizerMunch.TextsAreMatchesIff | src/parsing/avTokenizer.c:275-285 | the text of every token of every input is its match exactly if the table is closed |
| TokenizerMunch.OpenFails | src/parsing/avTokenizer.c:275-285 | in a table that is not closed, a start of a rule text as the whole input makes a token too long |
| TokenizerMunch.NothingDroppedIff | src/parsing/avTokenizer.c:229-242 | no started text is ever dropped exactly if the first character of every rule text is a rule text |
| TokenizerMunch.FirstAloneDropped | src/parsing/avTokenizer.c:229-242 | otherwise such a character alone is dropped, and the answer is that there are no tokens |
| TokenizerMunch.TextRunsOver | src/parsing/avTokenizer.c:275-285 | a table and an input whose first token has a text longer than its match |
| TokenizerMunch.TextDropped | src/parsing/avTokenizer.c:229-242 | a table and an input that is dropped |
| DebugRegistry.SwapKeepsInverse | src/string/avString.c:278-281 | the four updates of swap-remove keep the permutations inverse |
| DebugRegistry.Grown | src/string/avString.c:212-216 | growth with the identity keeps the permutations inverse and all that is recorded |
| DebugRegistry.PutTakes | src/string/avString.c:219-221 | a memory put behind the others is the only one added |
| DebugRegistry.SwapRemoveTakesOne | src/string/avString.c:270-284 | moving the last memory into the free slot takes away exactly the removed one |
| DebugRegistry.TagsTellApart | src/string/avString.c:219-221 | no memory is in two slots |
| DebugRegistry.FoundOnlyIfLive | src/string/avString.c:254-267 | following a memory's id leads to it exactly if it is recorded |
| DebugRegistry.DebugContext.constructor | src/string/avString.c:414-435 | a new context records nothing |
| DebugRegistry.DebugContext.Grow | src/string/avString.c:206-217 | doubles the capacity and changes nothing that is recorded |
| DebugRegistry.DebugContext.Add | src/string/avString.c:204-236 | records the memory, and none of the checks for corruption fails |
| DebugRegistry.DebugContext.Check | src/string/avString.c:223-236 | the two loops over the registry never find corruption |
| DebugRegistry.DebugContext.Remove | src/string/avString.c:248-284 | removes exactly that memory and marks it; the checks fail exactly if it was not recorded |
| DebugRegistry.AddAllocation | src/string/avString.c:191-237 | memory on the heap is recorded by the context around the current one, other memory by the current one |
| DebugRegistry.RemoveAllocation | src/string/avString.c:239-297 | a memory without context is left alone, otherwise its context forgets it |
| StringMemory.TextMeans | src/string/avString.c:133-148 | a constant reads as itself, and a backed string as the characters of its memory |
| Common.SectionMeans | src/string/avString.c:133-148 | character by character: a section ends with its length or with the text |
| StringMemory.HandlesAfter | src/string/avString.c:146-148 | overwriting a variable changes the number of handles on a memory by what it held and holds |
| StringMemory.SomeHandle | src/string/avString.c:159-168 | the number of handles is zero exactly if no variable is backed by the memory |
| StringMemory.BindConservesIff | src/string/avString.c:121-149 | counting a reference and overwriting the variable keeps all counts right exactly if it was not backed |
| StringMemory.UnbindConserves | src/string/avString.c:159-182 | freeing a variable keeps all counts right and leaves no memory without a handle |
| StringMemory.ReleasedWithLastHandle | src/string/avString.c:159-168 | storage is given back exactly when the last handle goes |
| StringMemory.UnbindKeepsTexts | src/string/avString.c:170-182 | no other variable notices a free |
| StringMemory.FromMemoryConservesIff | src/string/avString.c:121-149 | a reference is lost exactly if a variable backed by the same memory is bound to it again |
| StringMemory.FromMemoryLoses | src/string/avString.c:121-149 | a variable and a memory for which a reference is lost |
| StringMemory.FromMemoryReads | src/string/avString.c:133-148 | the variable reads as the section of the memory |
| StringMemory.CopySectionConservesIff | src/string/avString.c:53-79 | a copy keeps the counts right exactly if it does nothing or its destination is free |
| StringMemory.CopySectionLoses | src/string/avString.c:53-79 | a variable overwritten by a constant whose reference is lost |
| StringMemory.CopySectionReads | src/string/avString.c:53-79 | a copy reads as the section of its source |
| StringMemory.AdoptMeans | src/string/avString.c:875-884 | new memory is filled before the old is let go, the variable reads as the text and is its only handle |
| StringMemory.AdoptKeepsTexts | src/string/avString.c:875-884 | no other variable notices |
| StringMemory.MoveMeans | src/string/avString.c:81-92 | the source is let go, the counts stay right, and the text is carried over exactly if source and destination are two variables |
| StringMemory.AppendReads | src/string/avString.c:875-884 | the variable reads as its own text followed by that of the source |
| StringMemory.AppendCharReads | src/string/avString.c:865-873 | the variable reads as its own text followed by the character |
| StringMemory.CloneReads | src/string/avString.c:39-47 | the variable reads as the source |
| StringMemory.MoveReads | src/string/avString.c:81-92 | the destination reads as the source did; the source is emptied unless it is a constant |
| StringMemory.FreeMeans | src/string/avString.c:159-182 | the variable is emptied; its memory has one reference less or, with the last one, is given back, and its record too if it is on the heap |
| StringMemory.FromMemoryMeans | src/string/avString.c:121-149 | the whole new world: one reference more and the section cut to the memory, or nothing at all |
| StringMemory.CopyConstantMeans | src/string/avString.c:53-79 | a copy of a constant is the section of it, and counts nothing |
| StringMemory.StepConserves | src/string/avString.c:39-182 | every operation keeps all counts right and leaves no memory without a handle |
| StringMemory.StepKeepsTexts | src/string/avString.c:39-182 | no operation changes what any other variable reads as, although memories are shared |
| StringMemory.RunLeaksNothing | src/string/avString.c:39-182 | over every run the counts are right, and once every variable is let go no memory is left on the heap |
| StringHeap.StringHeap.HeapAllocate | src/string/avString.c:184-189 | a zeroed memory at a new address with no references |
| StringHeap.StringHeap.Store | src/string/avString.c:388-406 | the memory holds what the store on buffers says, also when the string lies in the same memory without overlapping the target |
| StringHeap.StringHeap.RemoveReference | src/string/avString.c:159-168 | one reference less, or the memory given back |
| StringHeap.StringHeap.Free | src/string/avString.c:170-182 | takes the step that lets a variable go, and its assertions on counts hold |
| StringHeap.StringHeap.FromMemory | src/string/avString.c:121-149 | takes the step of the same name |
| StringHeap.StringHeap.CopySection | src/string/avString.c:53-79 | takes the step of the same name |
| StringHeap.StringHeap.Clone | src/string/avString.c:39-47 | the variable adopts and reads as the text of the source |
| StringHeap.StringHeap.Append | src/string/avString.c:875-884 | the variable adopts and reads as its text followed by that of the source |
| StringHeap.StringHeap.AppendChar | src/string/avString.c:865-873 | the variable adopts its text followed by the character |
| StringHeap.StringHeap.Move | src/string/avString.c:81-92 | takes the step of the same name |
| StringHeap.StringHeap.Replace | src/string/avString.c:784-829 | the world in which the result was bound without letting go of what the destination was backed by |
| StringHeap.ReplaceBindsIff | src/string/avString.c:827 | the destination takes over the result, and nothing is left without a variable, exactly if it was not backed or nothing was counted |
| StringHeap.ReplaceLeaks | src/string/avString.c:827 | a string replaced in place, whose result is lost |
| Bits.AndLowMask | src/memory/avLinearAllocator.c:26 | masking with one less than a power of two is the remainder by it |
| Bits.AndHighMask | src/memory/avDynamicAllocator.c:21-24 | masking with the high bits rounds down to a multiple |
| Bits.PowerTest | src/memory/avLinearAllocator.c:19-21 | the 64-bit test passes exactly for zero and the powers of two |
| Bits.NextPow2Least | src/util/avMath.c:4-6 | the least power of two that is not below the number, up to 2^30 |
| PageAllocator.AlignUpLeast | src/memory/avDynamicAllocator.c:21-24 | the least multiple of eight that is not below the size, exactly up to the last multiple below 2^64, and zero behind it |
| PageAllocator.PageSizeFits | src/memory/avDynamicAllocator.c:48-54 | a page opened for a request has room for it |
| PageAllocator.PushKeeps | src/memory/avDynamicAllocator.c:11-19 | a new front page changes nothing about the blocks handed out |
| PageAllocator.CutKeeps | src/memory/avDynamicAllocator.c:35-41 | a block cut off the front page lies behind all others of that page |
| PageAllocator.ReserveKeeps | src/memory/avDynamicAllocator.c:43-56 | a request keeps blocks apart and used plus remaining size of every page |
| PageAllocator.ReservedWhere | src/memory/avDynamicAllocator.c:35-56 | a request that the front page has room for moves its cursor and nothing else; any other opens a page in front, of a kilobyte or the least power of two for more |
| PageAllocator.Biggest | src/memory/avDynamicAllocator.c:72-89 | a page of maximal size |
| PageAllocator.BiggestIsFirst | src/memory/avDynamicAllocator.c:72-89 | of several pages of maximal size it is the first |
| PageAllocator.ResetKeeps | src/memory/avDynamicAllocator.c:62-96 | one empty page of maximal size is left, as large as it was |
| PageAllocator.RunKeepsBlocksApart | src/memory/avDynamicAllocator.c:43-96 | over every run the blocks since the last reset lie in live pages on multiples of eight, no byte is in two of them, and the total is the sum of their sizes |
| DynamicAllocators.FirstPageSize | src/memory/avDynamicAllocator.c:30-32 | the first page is as large as a request of that size would open |
| DynamicAllocators.WalkRound | src/memory/avDynamicAllocator.c:75-89 | each round of the reset frees a live page that is not the largest so far, and never one still to be visited |
| DynamicAllocators.DynamicAllocator.constructor | src/memory/avDynamicAllocator.c:26-33 | no page, or one page for the initial size |
| DynamicAllocators.DynamicAllocator.AllocatePage | src/memory/avDynamicAllocator.c:11-19 | hangs an empty page in front |
| DynamicAllocators.DynamicAllocator.Allocate | src/memory/avDynamicAllocator.c:43-56 | takes the step of the machine and returns its block |
| DynamicAllocators.DynamicAllocator.Reset | src/memory/avDynamicAllocator.c:62-96 | keeps exactly one page of maximal size, empty; every other page is freed once and none is read afterwards |
| DynamicAllocators.DynamicAllocator.Destroy | src/memory/avDynamicAllocator.c:98-109 | frees every page once |
| LinearAllocator.AlignForwardLeast | src/memory/avLinearAllocator.c:23-32 | the least aligned address that is not below the cursor, for a power of two |
| LinearAllocator.PlacedWell | src/memory/avLinearAllocator.c:34-48 | the place is aligned, behind everything handed out, and the first that would do; the code accepts exactly the requests for which some place would do, exactly if the end of the request does not wrap into the arena |
| LinearAllocator.OffsetIsWord | src/memory/avLinearAllocator.c:34-37 | the next aligned address is 2^64 at most, so that the offset does not wrap |
| LinearAllocator.OverflowsHere | src/memory/avLinearAllocator.c:39-41 | an arena of sixteen bytes that accepts 2^64 - 8 |
| LinearAllocator.StepLaysOut | src/memory/avLinearAllocator.c:34-52 | a request or a reset keeps blocks aligned, inside and in order |
| LinearAllocator.RunLaysOut | src/memory/avLinearAllocator.c:34-52 | over every run the blocks since the last reset are aligned in absolute address, inside the arena, and no byte is in two of them |
| LinearAllocator.LinearAllocator.constructor | src/memory/avLinearAllocator.c:6-14 | an empty zeroed arena |
| LinearAllocator.LinearAllocator.AllocateAligned | src/memory/avLinearAllocator.c:34-48 | an aligned zeroed block behind the cursor, nothing else touched, or null and nothing changed |
| MemoryWords.LoadStore | src/memory/avMemory.c:167-172 | loading a word and storing it moves its bytes unchanged |
| MemoryWords.EightCopies | src/memory/avMemory.c:190 | the fill word is eight copies of the value and fits 64 bits |
| MemoryWords.CopiedAt | src/memory/avMemory.c:158-180 | the copy changes exactly the bytes of the range |
| MemoryWords.FilledAt | src/memory/avMemory.c:182-202 | the fill changes exactly the bytes of the range |
| MemoryWords.CopyOn | src/memory/avMemory.c:162-179 | copying on behind what is copied is one longer copy |
| MemoryWords.Memcpy | src/memory/avMemory.c:158-180 | prologue, words and tail are the bytewise copy, and words are stored at aligned addresses only |
| MemoryWords.Memset | src/memory/avMemory.c:182-202 | prologue, words and tail are the bytewise fill, and words are stored at aligned addresses only |
| Streams.ShownMeans | src/dataStructures/avStream.c:22-42 | with a descriptor or room everything is shown; otherwise as much as fits behind the text |
| Streams.ShownOne | src/dataStructures/avStream.c:31-42 | characters may be put one at a time, whether or not the rest fits |
| Streams.Stream.PutC | src/dataStructures/avStream.c:31-42 | the character is shown, unless the buffer is full and there is no descriptor; nothing shown is lost |
| Streams.Stream.Discard | src/dataStructures/avStream.c:22-29 | emptying the buffer into the descriptor loses nothing |
| Printf.NumeralDenotes | src/string/avPrintf.c:119-128 | the digits denote the value in the base, with no leading zero |
| Printf.NumeralDigits | src/string/avPrintf.c:113-117 | every character of a numeral is one of the digits of its base and case |
| Printf.NumeralFits | src/string/avPrintf.c:119 | a value below 2^n needs at most n digits in any base |
| Printf.CollectRound | src/string/avPrintf.c:124-128 | each digit collected leaves the same numeral to come |
| Printf.CollectFits | src/string/avPrintf.c:119-142 | the buffer of 64 characters cannot run over, and a decimal numeral leaves room for a sign |
| Printf.CollectDigits | src/string/avPrintf.c:119-128 | the buffer reversed is the numeral |
| Printf.CharactersIsLog | src/string/avPrintf.c:95-104 | the number of characters is the whole part of the logarithm and one |
| Printf.NumeralLength | src/string/avPrintf.c:95-104 | it is the length of the numeral |
| Printf.FieldWidth | src/string/avPrintf.c:130-142 | a field is as wide as asked for, or as its sign and numeral |
| Printf.FieldDenotes | src/string/avPrintf.c:130-145 | behind its blanks a field denotes what its sign and numeral do, zeros or not |
| Printf.FieldMeans | src/string/avPrintf.c:130-145 | character by character: blanks, sign and numeral, or sign, zeros and numeral |
| Printf.ZerosFitIff | src/string/avPrintf.c:119-134 | zero padding stays inside the buffer of 64 characters exactly up to a width of 64 |
| Printf.PrintUint | src/string/avPrintf.c:111-145 | the stream shows the sign and the numeral in their field, padded with blanks or zeros |
| Printf.IntInterpretedIff | src/string/avPrintf.c:147-176 | sign and magnitude give the argument back exactly strictly between the extremes of the width; beyond them the magnitude is what is left of the negated argument in half the range |
| Printf.IntPrintedIff | src/string/avPrintf.c:147-176 | what is printed, in any field, denotes the argument exactly strictly between the extremes; the least one prints as "-0" |
| Printf.PrintInt | src/string/avPrintf.c:190-219 | the stream shows the sign and magnitude of the argument in their field |
| Printf.ScanUint | src/string/avString.c:973-986 | the digits of the whole rest of the string, wrapped once at the end |
| Printf.DigitsOnlyOne | src/string/avString.c:976-982 | a character is kept exactly if it is one of the ten digits |
| Printf.ScanExactIff | src/string/avString.c:973-986 | a row of digits is scanned as what it denotes exactly if that is below 2^32 |
| Printf.ScanLeadingIff | src/string/avString.c:973-986 | as long as nothing wraps, a text is scanned as the number it starts with exactly if no digit stands behind it or all are zeros |
| Printf.TailHarmlessIff | src/string/avString.c:973-986 | every number is scanned rightly in front of a tail, wrapping or not, exactly if the tail has no digit |
| Printf.ScanHere | src/string/avString.c:973-986 | two strings that are scanned as something else |
| Printf.PrefixDenotesLess | src/string/avString.c:976-982 | a numeral cut short denotes less |
| Printf.RoundTripIff | src/string/avString.c:973-986 | scanning what was printed gives the value back exactly if the numeral fitted the buffer, and ten characters always do |
| PrintFormat.PrintTo | src/string/avPrintf.c:250-332 | the machine over the format shows its output on the stream |
| PrintFormat.FormatPrints | src/string/avPrintf.c:250-332 | every format made of plain characters and conversions prints piece by piece, each conversion with its own argument |
| PrintFormat.ConversionPrints | src/string/avPrintf.c:63-93 | modifiers, widths and zero flags add up until the conversion letter |
| PrintFormat.WidthDenotes | src/string/avPrintf.c:68-76 | digits in a row denote the width, and zeros in front of them ask for zero padding |
| PrintFormat.ZerosRunOver | src/string/avPrintf.c:119-134 | a format whose zeros do not fit the buffer |
| PrintFormat.PrintValue | src/string/avPrintf.c:178-248 | every kind of argument is shown as its conversion says |
| PrintFormat.PointerDenotes | src/string/avPrintf.c:199-207 | a pointer shows sixteen digits that denote it |
| PrintFormat.UintDenotes | src/string/avPrintf.c:190-219 | behind its blanks an unsigned conversion denotes its argument in its base, and is at least as wide as asked for |
| PrintFormat.PrintThenScan | src/string/avPrintf.c:349-361 | printing any 32-bit value with %u and scanning it with %u gives it back exactly if it fitted |
| PrintMeaning.PrintsInt | src/string/avPrintf.c:147-176 | %i of any length shows its argument in decimal strictly between the extremes, and otherwise a minus and the rest in half the range |
| PrintMeaning.PrintsUnsigned | src/string/avPrintf.c:190-219 | %u, %x, %X and %b show the word cut to the argument, in digits of their base and case |
| PrintMeaning.PrintsPointer | src/string/avPrintf.c:199-207 | %p shows sixteen digits of base sixteen in upper case |
| PrintMeaning.PrintsChar | src/string/avPrintf.c:222-227 | %c shows the low byte |
| PrintMeaning.PrintsString | src/string/avPrintf.c:238-245 | %S shows the string |
| PrintMeaning.PrintsCString | src/string/avPrintf.c:229-237 | %s shows what stands in front of the first NUL |
| PrintMeaning.PrintsPercent | src/string/avPrintf.c:63-67 | a second percent sign is shown, and takes an argument as %i does |
| PrintMeaning.PrintsPadded | src/string/avPrintf.c:130-145 | a width puts blanks in front, or zeros behind the sign, up to the number its digits denote |
| PrintMeaning.PlainGoesOn | src/string/avPrintf.c:250-265 | any other character is shown as it is |
| PrintMeaning.ConversionGoesOn | src/string/avPrintf.c:266-332 | a conversion shows its own argument, and the rest of the format the other arguments |
| PrintMeaning.UnknownPassed | src/string/avPrintf.c:88-92 | a character that means nothing behind a percent sign is passed over |
| PrintMeaning.PrintsHere | src/string/avPrintf.c:147-176 | minus five |

## Left out

- Page records are Dafny values in a map from addresses instead of objects; an update through a
  pointer is an update of the map. What the map does not capture is the layout of a page in memory.
- An element is one number instead of a stretch of bytes; the element size in bytes is not modelled.
- DynamicArrays.DynamicArray.AddRange: the byte offset and the stride of the source range, which only
  say where its elements lie in memory.
- DynamicArrays.DynamicArray.ReadRange: the byte offset and the stride of the destination.
- Of the callback for elements that are given up, with what it is called and when; what it does is its
  own affair. Clear gives up elements without calling it, as the C code does.
- avDynamicArrayAddEmpty, WriteRange, Contains, the page queries and Clone: easy members, or members
  whose own answer supports no clean claim.
- Nothing wraps in the counters of the dynamic array, in `length + offset` of strings or beyond requests
  of 2^30 in the pages of the dynamic allocator; preconditions say so. What the linear allocator does
  behind a request that overflows is not modelled.
- Allocation never fails, and addresses come from a search for one that is not in use.
- Two pages of the dynamic allocator do not overlap because they are different records; a block is a
  page and a distance from its start.
- StringHeap.StringHeap.Store: a string is not stored over itself, which memcpy does not allow.
- StringHeap.StringHeap.Move: a backed variable onto itself, which fails the assertion that a memory has a
  capacity.
- StringMemory.StepConserves: CopySection and FromMemory only into variables that are not backed,
  since otherwise the counts are wrong; the exact condition is a lemma of its own.
- Strings that point into a memory without being counted, avStringResize, avStringShift,
  avStringJoin and the other members built from the ones modelled.
- The path normaliser keeps its stack as a sequence; the array that holds it in C is `DynamicArrays`.
- The Windows branches of the path functions.
- PathMeaning.ResolveRelative: the variable for the result has no text before.
- TokenizerLoop.Tokenize: the line and character counters and the copying of token texts, and what a
  write behind the array of completions does; exact rules with an empty text, on which the C loop need
  not end.
- Words are little endian in `MemoryWords`; a big-endian machine would only reverse each word.
- PrintFormat.PrintTo: arguments that do not fit their conversion, and zero padding to more than 64
  characters; both are undefined in C. The logarithms that count digits are exact here, not
  floating-point numbers, whose rounding may put the padding off by one.
- Printf.ScanUint: of avStringScanf only the conversion of unsigned integers.
- A descriptor takes everything that is written to it.
- The end of a debug context, the leak list of avMemory, ReadAll and Transform of the allocators.
- avStringReplaceAll, avRegex, arrays, queues, grids, tables, maps, bit fields, files, processes and
  threads.
