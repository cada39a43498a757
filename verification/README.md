# c4stl in Dafny

A model of the parts of c4stl whose correctness spans many operations, with proofs of what they keep.

- **Lists** (`ListModel.dfy`, `ListClass.dfy`). The four array-backed lists share one chain of live
  slots and one chain of free slots in the same index array, and grow in place or by copying. The class
  `List` has the CRTP code as methods and one of four storage layouts as its data; every method is proved
  against a function on the value `State`, and the lemmas are about whole runs of those functions.
- **Searching, splitting, paths** (`Find.dfy`, `Splitting.dfy`, `Paths.dfy`, `PushPop.dfy`). Splits and
  joins undo each other, pops agree with the splitter, basename and dirname take a path apart, pushes and
  pops undo each other, erase keeps exactly what it should.
- **Strings and expression templates** (`BasicString.dfy`, `StringSpec.dfy`, `StrExpr.dfy`,
  `Buffers.dfy`). basic_string in its short and long form, and every operation that modifies it in place,
  refine operations on a plain sequence of characters; lazy concatenation means what eager evaluation
  means, exactly when no slash is trimmed.
- **String streams** (`Stream.dfy`, `StreamSpec.dfy`, `Tokens.dfy`). Every session of writes, reads,
  extractions, seeks and resets does on the stream what it does on an unlimited tape, through every
  reallocation of its string; without seeks, what it does on a plain text. Words written with a separator
  come back through extraction, with the exact condition on the words.
- **Kernels** (`Room.dfy`, `Memory.dfy`, `Fnv.dfy`, `Arith.dfy`). Opening and closing gaps, mem_repeat,
  FNV-1a.

Conventions. `npos` is -1, which is never an index. What an operation gets from outside is a parameter:
the decision of a list's storage to copy or not and its new capacity (`Growth`), what raw slots hold
(`junk`), and `size_t(1.618f * float(size))` as any function of the size (`factor`). Where the source
would call C4_ERROR, fail an assertion that clients can run into, or read past the end of a text or a
buffer, the method says so in a result (`ok`, `raised`, `inside`, `Outcome`). A character of a short string
is a byte. A 64-bit little-endian platform is assumed for the layout of the short string and for
`size_t` in the hash. Strings passed to a modifying operation do not overlap its buffer.

What the code does not do, with the exact condition under which it does:

- A list loses its end when elements are cleared, and when a reserve grows a storage that holds some, except
  in place in a forward list with a free slot; the next push_back restores it (`ListModel.EndKnownOverRuns`).
  Until then iterating shows, and the destructor visits, every slot of the storage
  (`ListModel.State.IterationShowsValuesExactly`, `ListModel.State.DestructorVisitsExactly`), and a reserve
  that copies fails its own assertion (`ListModel.State.ReserveExactly`).
- A doubly linked list that grows while it holds two elements or more forgets the prev of its tail, until
  it is cleared (`ListModel.State.PrevInverseExactly`, `ListModel.PrevInverseOverRuns`).
- `pushr` takes a separator but writes a slash (`PushPop.PushRThenPopExactly`).
- `pushl` whose separator is NUL, on a text of NULs only, does not stop at the terminator
  (`BasicString.SkipStopsExactly`).
- `find` does not find the empty pattern (`Find.FindPattern`).
- `reserve` that makes a short string long changes its size unless the seven bytes under the size word are
  zero; a string that held "abc" and was cleared gets a size again, a text of seven NULs keeps its own. A
  long string that is reallocated while it is empty gets no terminator
  (`BasicString.GrowingShortKeepsSizeExactly`, `BasicString.Str.Reserve`).
- So a stream cannot be built over a short string that the first reserve of its constructor makes long, one
  of fifteen characters or more; it can exactly when that reserve keeps the size, which is
  `KeepsSize(Capacity())` (`BasicString.Str.Reserve`, `Stream.SStream.constructor`).
- `>>` looks at the character at the put position; if that and all there is to read is white space, it
  fails the check of `advg`. It takes a seek, a reset or a string with text at the start of the stream. With
  both positions at the end of the buffer it looks past the buffer (`Stream.SStream.Extract`,
  `Stream.ExtractAt`).
- make_room and destroy_room with a room of zero move elements onto themselves (`Room.DirectionsExactly`,
  `Room.DestroyRoom`).
- destroy_room of n elements with a room above n / 2 but below n leaves live elements in the slots it gives
  up: they are neither moved from nor destroyed (`Room.DestroyRoom`, `Room.OpenFillClose`).
- mem_overlaps reports an empty range inside another one (`Memory.OverlapsExactly`).

`Failures.dfy` has an input for each, and `Stream.ExtractAtSpace` that for `>>`; an empty long string and a
look past the buffer have none, since what is found there is whatever memory holds.

## Model

| member | source | states |
|---|---|---|
| ListModel.State.ChainsPartition | src/c4/list.hpp:293-337 | the first size() nodes from the head are slots 0..size-1, the free chain is slots size..capacity-1, together all slots; following next from the head of a terminated list ends at the tail after size() steps |
| ListModel.State.ValuesArePrefix | src/c4/list.hpp:260-271 | the elements of the first size() nodes from the head are those of the first size() slots |
| ListModel.State.IterationShowsValuesExactly | src/c4/list.hpp:523-527 | iterating from the head to npos shows these elements exactly when the end is known, and the whole storage otherwise |
| ListModel.State.CopyAssertsExactly | src/c4/list.hpp:476-483 | the walk of the copying branch meets size() nodes exactly when the end is known (the last element is terminated, or there is none and never was), and every slot otherwise |
| ListModel.State.GrownKeeps | src/c4/list.hpp:466-492 | growth of either kind keeps size, head, tail and the live elements and gives at least the capacity asked for |
| ListModel.State.GrownPrevs | src/c4/list.hpp:474-492 | copying growth writes the prev of the elements before the tail, growth in place keeps it |
| ListModel.State.WithRoomKeeps | src/c4/list.hpp:160-168 | making room for one element keeps the list and leaves a free slot |
| ListModel.State.AppendedKeeps | src/c4/list.hpp:171-180 | claiming and linking a slot adds exactly the value at the end of the live slots and terminates the list |
| ListModel.State.PushBackAppends | src/c4/list.hpp:260-265 | push_back appends the value and leaves a terminated list, whether or not it was, growing only when full |
| ListModel.State.ClearEmpties | src/c4/list.hpp:239-245 | clear gives an empty list with all slots on the free chain |
| ListModel.State.ReserveExactly | src/c4/list.hpp:230-237 | on every list, exactly when reserve completes, the capacity it leaves, and exactly when it leaves the list terminated |
| ListModel.State.DestructorVisitsExactly | src/c4/list.hpp:442-448 | on every list, the destructor visits the live slots exactly when the end is known, and otherwise all slots |
| ListModel.State.PrevInverseIs | src/c4/list.hpp:326-327 | prev undoes next on the live chain exactly when it counts down by one |
| ListModel.State.PrevInverseExactly | src/c4/list.hpp:295-303 | a push_back leaves prev inverse to next exactly when it was and the list did not grow, or there was at most one element |
| ListModel.State.ReservePrevExactly | src/c4/list.hpp:230-237 | and so does a reserve |
| ListModel.Constructed | src/c4/list.hpp:450-458 | the constructors give an empty list of the storage's capacity that satisfies the invariant |
| ListModel.FromValuesHolds | src/c4/list.hpp:142-157 | the aggregate constructor gives a list of the values, with correct prev links |
| ListModel.StepKeeps | src/c4/list.hpp:228-271 | every call that completes does to the values what it does to a plain sequence |
| ListModel.RunRefinesSequence | src/c4/list.hpp:228-271 | so does every run of push_back, clear and reserve |
| ListModel.MeantRunKeepsInv | src/c4/list.hpp:171-180 | when reserve comes before the first push, no assertion fails and the list is terminated after every run |
| ListModel.EndKnownOverRuns | src/c4/list.hpp:228-271 | over every run that completes, the end is unknown at the end of it exactly when a clear or a growing reserve lost it since the last push |
| ListModel.PrevInverseOverRuns | src/c4/list.hpp:322-337 | over every run that completes, prev is the inverse of next exactly when the storage did not grow with two elements or more since the last clear, with slots recycled |
| ListModel.RunsAgree | src/c4/list.hpp:45-55 | the same calls give the same size and values for both kinds of links, whatever capacity and growth, in all runs that complete; those with reserve before the first push do |
| ListClass.List.WithCapacity | src/c4/list.hpp:450-458 | builds the constructed state in each layout |
| ListClass.List.InitInitlist | src/c4/list.hpp:142-157 | does what the aggregate constructors do, element by element |
| ListClass.List.InitSeq | src/c4/list.hpp:305-320 | threads the slots onto one chain and changes no other slot |
| ListClass.List.SetSeqHead | src/c4/list.hpp:293-303 | threads the free slots from the tail (doubly linked) or the old end (forward) |
| ListClass.List.CopyNodes | src/c4/list.hpp:474-482 | the copying loop ends and writes the nodes in logical order |
| ListClass.List.CopyTo | src/c4/list.hpp:472-484 | replaces the buffer if the walk met size() nodes |
| ListClass.List.GrowTo | src/c4/list.hpp:466-492 | grows as the specification function says, in all layouts |
| ListClass.List.Claim | src/c4/list.hpp:171-180 | takes the free head; its assertions hold |
| ListClass.List.Append | src/c4/list.hpp:322-337 | links the claimed slot behind the tail, for both kinds of links |
| ListClass.List.PushBack | src/c4/list.hpp:260-265 | new state is the specification's; values gain the new one |
| ListClass.List.Clear | src/c4/list.hpp:239-245 | new state is the specification's; no values |
| ListClass.List.Reserve | src/c4/list.hpp:230-237 | new state is the specification's, or the assertion failed and nothing changed |
| ListClass.List.Destroy | src/c4/list.hpp:442-448 | the loop ends and visits the chain of the head, which is the live slots exactly when the end is known |
| ListClass.List.Iterate | src/c4/list.hpp:523-527 | the client's loop ends and shows the chain of the head, which is the values exactly when the end is known |
| ListClass.List.Play | src/c4/list.hpp:228-271 | a client's run on one list object leaves the values of the same run on a sequence |
| ListClass.PlayOnTwo | src/c4/list.hpp:45-55 | two lists of any of the four classes that get the same calls and complete them end with the same size and values, whatever their storages decide |
| Find.First | src/c4/string.hpp:1665-1681 | finds the least position that qualifies, or there is none |
| Find.Last | src/c4/string.hpp:1716-1736 | finds the greatest position that qualifies, or there is none |
| Find.OneCharacterPattern | src/c4/string.hpp:1660-1661 | searching one character is searching the pattern of that character |
| Find.FindFirstOf | src/c4/string.hpp:1665-1681 | the loop finds the first character that is in the pattern |
| Find.FindFirstNotOf | src/c4/string.hpp:1687-1707 | the loop finds the first character that is not |
| Find.FindLastOf | src/c4/string.hpp:1716-1735 | the backward loop with a wrapping index finds the last one |
| Find.FindLastNotOf | src/c4/string.hpp:1742-1766 | the same for characters outside the pattern |
| Find.FindPattern | src/c4/string.hpp:1633-1654 | finds the first occurrence of a pattern; none exactly when there is none or the pattern is empty |
| Find.Count | src/c4/string.hpp:1492-1503 | counts the occurrences of a character |
| Splitting.PiecesCat | src/c4/string.hpp:1846-1879 | splitting is a homomorphism at every separator |
| Splitting.PiecesCount | src/c4/string.hpp:1814-1817 | there is one piece more than separators |
| Splitting.PiecesAreFree | src/c4/string.hpp:1846-1879 | no piece contains the separator |
| Splitting.JoinOfSplits | src/c4/string.hpp:1846-1879 | joining the splits gives the string back |
| Splitting.SplitsOfJoin | src/c4/string.hpp:1846-1879 | splitting a join of separator-free pieces gives them back exactly unless they are the one empty piece |
| Splitting.SplitsUnique | src/c4/string.hpp:1846-1879 | the splits are the only separator-free pieces that join to the string |
| Splitting.NumSplits | src/c4/string.hpp:1814-1817 | counts the splits |
| Splitting.NextSplit | src/c4/string.hpp:1846-1879 | the loop gives the next split, the position after it and the past-the-end result |
| Splitting.NextSplitAtEnd | src/c4/string.hpp:1863-1878 | from the end of the string on the split is empty, inside the string only after a final separator |
| Splitting.NextSplitTakesFirst | src/c4/string.hpp:1846-1879 | each call takes the first piece off what is left |
| Splitting.CollectByCalls | src/c4/string.hpp:1840-1879 | calling until false terminates and gives the splits |
| Splitting.EndExactly | src/c4/string.hpp:1909-1915 | an iterator equals the end exactly when no split is left |
| Splitting.CollectByRange | src/c4/string.hpp:1881-1960 | the range loop terminates and gives the splits from the start position |
| Paths.TrimL | src/c4/string.hpp:2007-2016 | leaves the longest suffix that does not start with a trimmed character |
| Paths.TrimR | src/c4/string.hpp:2024-2033 | leaves the longest prefix that does not end with one |
| Paths.Trim | src/c4/string.hpp:2041-2051 | removes trimmed characters from both ends and no others |
| Paths.LeftPopsAgreeWithSplits | src/c4/string.hpp:2158-2230 | popl is the first split, gpopr joins the others, and they make up the string |
| Paths.RightPopsAgreeWithSplits | src/c4/string.hpp:2105-2154 | popr is the last split, gpopl joins the others, and they make up the string |
| Paths.BaseAndDirDecompose | src/c4/string.hpp:2075-2101 | basename is the last name and the names of dirname are the others; without names basename is empty and dirname everything; dirname is a prefix, empty or ended by a separator |
| Paths.DirOfLastName | src/c4/string.hpp:2081-2101 | dirname is what comes before the last name with one separator kept |
| Paths.BaseOfLastName | src/c4/string.hpp:2075-2080 | basename is the last name without the separators after it |
| PushPop.SkippingPopsTakeNames | src/c4/string.hpp:2105-2256 | skipping empty splits, the pops take the first and last name and the greedy pops keep the others; without names, that is on separators only, all four are empty |
| PushPop.PushRJoins | src/c4/string.hpp:2422-2444 | whatever separators the string ends with and the pushed one starts with, all of them and no others are replaced by one slash |
| PushPop.PushLJoins | src/c4/string.hpp:2458-2495 | whatever separators the pushed one ends with and the string starts with, all of them and no others are replaced by one separator |
| PushPop.PushRThenPopExactly | src/c4/string.hpp:2422-2444 | after pushr, popr gives the name back exactly for the slash, and then gpopl the old string without trailing slashes |
| PushPop.PushLThenPop | src/c4/string.hpp:2458-2495 | after pushl, popl gives the name back and gpopr the old string without leading separators |
| PushPop.DropRIsTrimR | src/c4/string.hpp:2434-2438 | the loop that skips trailing separators trims as trimr does |
| PushPop.DropLIsTrimL | src/c4/string.hpp:2464-2478 | the loop that skips leading separators trims as triml does |
| PushPop.ErasedSelects | src/c4/string.hpp:2511-2527 | what erase leaves is the characters at the positions outside the set, in order |
| PushPop.PositionsAreAll | src/c4/string.hpp:2511-2527 | those positions are all the positions outside the set |
| PushPop.ErasedCat | src/c4/string.hpp:2511-2527 | erasing distributes over concatenation |
| PushPop.ErasedTwice | src/c4/string.hpp:2511-2527 | erasing again changes nothing |
| BasicString.OverlaidSizeIs | src/c4/string.hpp:3178-3189 | what the long size word reads over the flag byte and the first characters of a short string |
| BasicString.GrowingShortKeepsSizeExactly | src/c4/string.hpp:3466-3474 | making a short string long keeps its size exactly when the seven bytes under the size word are zero |
| BasicString.SkipStopsExactly | src/c4/string.hpp:2469-2478 | the skip of pushl stops exactly when a character up to and including the terminator is no separator |
| BasicString.Str.ResizeBuf | src/c4/string.hpp:3451-3474 | moves the text to a buffer of the given capacity |
| BasicString.Str.Reserve | src/c4/string.hpp:3368-3373 | the resulting capacity, that the text stays in the buffer, exactly when the size stays, and when the string stays as it is |
| BasicString.Str.Resize | src/c4/string.hpp:3358-3367 | cuts, or fills with NUL from the old size on, keeps room for the terminator and terminates, in both forms |
| BasicString.Str.Assign | src/c4/string.hpp:3301-3307 | the contents are the text assigned |
| BasicString.AssignNew | src/c4/string.hpp:3170-3172 | a new string stays short up to 22 characters |
| BasicString.Str.CopyAssign | src/c4/string.hpp:3243-3248 | the contents are the other string's, which is unchanged |
| BasicString.Str.MoveAssign | src/c4/string.hpp:3253-3283 | takes the other's contents in all four combinations of forms and leaves it empty and separate |
| BasicString.Str.PushBack | src/c4/string.hpp:3349-3354 | appends one character |
| BasicString.Str.Clear | src/c4/string.hpp:3381-3389 | leaves the empty string, terminated |
| BasicString.Str.ShrinkToFit | src/c4/string.hpp:3391-3408 | keeps the contents and gives up spare capacity or the long form |
| BasicString.Str.Append | src/c4/string.hpp:2364-2378 | appends the text |
| BasicString.Str.Prepend | src/c4/string.hpp:2392-2406 | puts the text in front through the overlapping move |
| BasicString.Str.PushR | src/c4/string.hpp:2422-2444 | the contents are those up to the separators at the end, a slash, and what is pushed from the first character that is none |
| BasicString.Str.PushL | src/c4/string.hpp:2458-2495 | the same on the left with the separator, whether the string shrinks or grows, or the skip passes the terminator |
| BasicString.Str.Erase | src/c4/string.hpp:2511-2527 | the backward scan with removal in place leaves the characters outside the set |
| BasicString.Str.AssignExpr | src/c4/string.hpp:2534-2542 | the contents are the meaning of the expression |
| BasicString.Play | src/c4/string.hpp:3349-3408 | every run of these calls, reserve included, leaves the text of the same run on a sequence, terminated, below the capacity, up to a reserve the text does not survive or a pushl whose skip does not stop |
| StrExpr.Expr.Size | src/c4/string.hpp:1001-1004 | size() is the length of what the expression means |
| StrExpr.Expr.Put | src/c4/string.hpp:1005-1010 | put() writes exactly what the expression means at the position and nothing else |
| StrExpr.TextIsFlat | src/c4/string.hpp:1001-1010 | however nested, an expression means its texts from left to right with a slash for each /, nothing trimmed |
| BasicString.PlusOf | src/c4/string.hpp:420-432 | the eager + builds the concatenation |
| BasicString.SlashOf | src/c4/string.hpp:433-445 | the eager / builds what pushr gives |
| BasicString.Evaluate | src/c4/string.hpp:418-445 | evaluating an expression eagerly on real strings gives its eager value |
| BasicString.AssignBothWays | src/c4/string.hpp:2534-2542 | assigning the lazy expression and evaluating it eagerly give the same string exactly when no / trims a slash |
| StrExpr.LazyIsGreedyExactly | src/c4/string.hpp:418-445 | lazy and eager evaluation agree exactly when no / trims a slash |
| StrExpr.SumsAreClean | src/c4/string.hpp:418-433 | they agree on every expression of + only |
| StrExpr.GreedyIsShorter | src/c4/string.hpp:2422-2444 | eager evaluation is never longer, and shorter as soon as a slash is trimmed |
| Tokens.SpacesAre | src/c4/string.hpp:2622-2626 | white space is the space and the codes 9 to 13 |
| Tokens.WordsComeBackExactly | src/c4/string.hpp:2618-2642 | words written with white space between are extracted again exactly when they have no space and no NUL and only empty ones follow an empty one |
| Tokens.WordsAreWordy | src/c4/string.hpp:2618-2642 | whatever the text, extracted words are of that kind |
| Tokens.UncatSepUndoesCatSepExactly | src/c4/sstream.hpp:262-284 | uncatsep undoes catsep exactly when the words have no space and no NUL and none but the last is empty |
| Tokens.IgnoringFillsUp | src/c4/sstream.hpp:273-284 | with errors ignored uncatsep gives the words it gives otherwise, and empty ones after the first error |
| Tokens.FilledUpIs | src/c4/sstream.hpp:273-284 | that is as many words as asked for, empty from the first error on |
| Tokens.UncatTakesFirst | src/c4/sstream.hpp:273-284 | uncatsep takes the first words of a text, one white space or NUL between them, and leaves the rest |
| Tokens.UncatByNulExactly | src/c4/sstream.hpp:262-284 | with NUL between, words come back exactly when they have no space and no NUL |
| StreamSpec.PutIsLocal | src/c4/sstream.def.hpp:121-124 | a write changes the characters it writes and the one after them |
| StreamSpec.WrittenIsRead | src/c4/sstream.hpp:99-113 | what is written at any put position is read back from there |
| StreamSpec.SeeklessIsPlain | src/c4/sstream.def.hpp:106-166 | a session without seeks on a tape reads, adds and leaves what it does on a plain text, and fails for the same calls |
| StreamSpec.ResetForgets | src/c4/sstream.hpp:72-77 | after a reset and a write the stream holds what was written and nothing else |
| Stream.SStream.constructor | src/c4/sstream.def.hpp:13-23 | a stream over any string whose size survives the reserve: its text stays in the buffer, the capacity is the size plus one |
| Stream.SStream.GrowTo | src/c4/sstream.def.hpp:75-83 | adds NULs to the buffer and loses none of its characters, whatever the put position |
| Stream.SStream.Write | src/c4/sstream.def.hpp:106-125 | from every put position, appends to the text and terminates it, through any reallocation, and leaves the rest of the buffer |
| Stream.SStream.AdvG | src/c4/sstream.hpp:212 | takes characters off what is left to read, or fails its check |
| Stream.SStream.Read | src/c4/sstream.def.hpp:151-166 | reads all the characters asked for, or none and an error |
| Stream.SStream.Peek | src/c4/sstream.def.hpp:87-102 | looks ahead up to the character at the put position, or fails, or looks past the buffer |
| Stream.SStream.CountSpaces | src/c4/string.hpp:2622-2626 | counts the white space ahead, and one more exactly when it runs into white space at the put position |
| Stream.SStream.CountWord | src/c4/string.hpp:2630-2637 | counts up to the next white space, NUL or end |
| Stream.SStream.Extract | src/c4/string.hpp:2617-2642 | takes one word off the text and leaves the rest; the check of advg fails exactly when all there is to read and the character at the put position are white space; the character past the buffer is looked at exactly when both positions are at its end |
| Stream.WriteAll | src/c4/sstream.def.hpp:106-125 | after any writes, from every position seekp accepts, strp() is what was there and everything written, terminated |
| Stream.Make | src/c4/sstream.hpp:72-113 | one call does on the stream what it does on a tape, and is not made exactly when it fails there or needs more buffer |
| Stream.Play | src/c4/sstream.hpp:72-113 | every session of writes, reads, extractions, seeks and resets is the same session on a tape, whenever the string is reallocated |
| Stream.PlayPlainly | src/c4/sstream.def.hpp:106-166 | without seeks it reads what it would from a plain text, and the text is everything written |
| Stream.CatSep | src/c4/sstream.hpp:262-272 | writes the join of the strings |
| Stream.UncatSep | src/c4/sstream.hpp:273-284 | extracts words with one character read between, and what it leaves to read; an error ends it, or if ignored leaves the other words empty |
| Stream.CatThenExtract | src/c4/string.hpp:2608-2642 | on a real stream, strings written with white space between come back exactly when they are wordy |
| Stream.CatThenUncat | src/c4/sstream.hpp:262-284 | and through uncatsep exactly when they are separable, or plain if NUL is between |
| Stream.ExtractAt | src/c4/string.hpp:2617-2642 | with both positions moved back into the text, extraction fails exactly when there is white space at that position |
| Stream.ExtractAfterReset | src/c4/sstream.hpp:72-77 | after a reset, exactly when what was written before begins with white space |
| Room.DirectionsExactly | src/c4/ctor_dtor.hpp:302-321 | when the forward and the backward loop move each element once, read no moved-from slot and overwrite no live one |
| Room.MakeRoom | src/c4/ctor_dtor.hpp:302-321 | the direction chosen is right exactly when there is a gap to open or nothing to move; then the elements are behind a gap that holds nothing live, and the rest is as it was |
| Room.MakeRoomAt | src/c4/ctor_dtor.hpp:324-332 | the same at a position inside the buffer |
| Room.MakeRoomInto | src/c4/ctor_dtor.hpp:345-360 | copies into another buffer with a gap, constructing only over slots that hold nothing |
| Room.DestroyRoom | src/c4/ctor_dtor.hpp:395-414 | closes the gap by assignments that are right exactly when there is a gap, or destroys the elements when all go; exactly when the slots given up hold nothing live |
| Room.DestroyRoomInto | src/c4/ctor_dtor.hpp:427-443 | copies into another buffer without the gap |
| Room.OpenFillClose | src/c4/ctor_dtor.hpp:302-414 | opening, filling and closing a gap in place restores the elements, and exactly when it gives the gap back |
| Room.OpenFillCloseInto | src/c4/ctor_dtor.hpp:345-443 | and between buffers |
| Room.MakeRoomTrivial | src/c4/ctor_dtor.hpp:287-300 | moves the block, with memcpy only for disjoint ranges |
| Room.DestroyRoomTrivial | src/c4/ctor_dtor.hpp:380-393 | moves the block back |
| Memory.OverlapsExactly | src/c4/memory_util.cpp:10-25 | mem_overlaps says whether two ranges share an address exactly unless one is empty and inside the other |
| Memory.MemRepeat | src/c4/memory_util.cpp:28-48 | fills the buffer with the pattern, leaves the rest, and makes one more copy than the binary logarithm of the repetitions, rounded up; every copy is of disjoint ranges in bounds |
| Memory.PeriodicBlocks | src/c4/memory_util.cpp:28-48 | so every block of the buffer is the pattern |
| Arith.CeilLog2IsLeast | src/c4/memory_util.cpp:37-42 | the number of doublings is the least power of two that reaches the number of repetitions |
| Fnv.Fnv1a.UpdateBy | src/c4/hash.hpp:37-48 | the loop computes the hash of the bytes from the state |
| Fnv.HashBytes | src/c4/hash.hpp:67-72 | hashes from the offset basis, with the published digests of the empty input and of "a" |
| Fnv.EmptyDigests | src/c4/hash.hpp:52-53 | the published 64-bit and 32-bit digests of the empty input |
| Fnv.KnownDigests64 | src/c4/hash.hpp:37-53 | the published 64-bit digest of "a" |
| Fnv.KnownDigests32 | src/c4/hash.hpp:37-53 | the published 32-bit digest of "a" |
| Fnv.Streaming | src/c4/hash.hpp:37-48 | hashing in two parts is hashing the whole |
| Fnv.StepIsModular | src/c4/hash.hpp:41-46 | computing in 64 bits and truncating is computing in the size of the state |
| Fnv.BothAreSound | src/c4/hash.hpp:52-53 | both primes are invertible modulo the number of states |
| Fnv.UpdateInjective | src/c4/hash.hpp:37-48 | updating with the same bytes keeps different states different |
| Fnv.OneByteChangesDigest | src/c4/hash.hpp:37-53 | inputs that differ in one byte have different digests, and only those |
| Fnv.DigestsAreSensitive | src/c4/hash.hpp:52-72 | so for both hashes from their offset basis |
| Failures.ReserveLosesTheEnd | src/c4/list.hpp:293-303 | a list of one element that shows two after a reserve, whose destructor visits two slots and whose second reserve fails |
| Failures.SecondReserveFails | src/c4/list.hpp:476-483 | push and two copying reserves fail the assertion |
| Failures.ReserveAfterClearFails | src/c4/list.hpp:476-483 | a cleared list on which a copying reserve fails its assertion |
| Failures.DestructorAfterClear | src/c4/list.hpp:442-448 | an empty list that shows two slots and whose destructor visits them |
| Failures.ThirdPushForgetsPrev | src/c4/list.hpp:305-320 | three pushes after which prev does not undo next |
| Failures.ReserveAfterText | src/c4/string.hpp:3466-3474 | a cleared short string that has a size after a reserve |
| Failures.PushLeftOfNul | src/c4/string.hpp:2469-2478 | a string of one NUL on which the skip of pushl passes the terminator |
| Failures.StreamOverText | src/c4/sstream.def.hpp:13-23 | a string of fifteen characters that changes its size in the constructor of a stream |
| Failures.CloseLargeGap | src/c4/ctor_dtor.hpp:395-414 | five elements of which three go, and one of these stays live |

## Left out

- The storage classes of src/c4/storage: a list's storage is one value whose growth is a parameter. The
  arrays of a split list grow alike. Fixed storages, which refuse to grow, have no growth.
- Overflow of sizes and indices, max_size, allocation failure, and the `int` in which pushr computes.
- `_claim(n)`, push_front, iterating backwards and the copying of lists.
- BasicString.Str.ResizeBuf: does not model the branch that would make a long string short
  (src/c4/string.hpp:3475-3492), which no caller reaches, nor when a buffer is given back.
- BasicString.Str.Reserve: says what a client finds after growing a short string that holds text, not what
  later calls on such a string do; nor what the missing terminator of an empty long string happens to be.
- Stream.SStream.constructor: not over a short string whose size the first reserve changes, as above.
- Stream.SStream.Peek: with the get position past the put position, where `seekp` leads, its assertion fails;
  builds without it compute a wrapped difference. A session makes no such call.
- Stream.SStream.Write: an error in the put flag makes it a no-op; nothing in the narrow-character paths
  sets that flag.
- printf, scanf, printp, scanp, wide characters, move_in and move_out of the stream.
- compare and the orderings, prevdiff, count from a position, append_expr and push_expr, arguments that
  overlap the buffer.
- substring classes that do not own memory, and basic_text: they share the operations proved for
  basic_string, on buffers with a fixed or other capacity policy.
- span, szconv, allocators, error reporting, logging, time, platform macros, benchmarks: no property of
  theirs spans several operations.
