# Verified core of the USB 3 FPGA card software

This project models the parts of the repository that carry real invariants or arithmetic, in Dafny 4.11, and proves what they are for. `dafny verify dfyconfig.toml` checks everything.

| file | component |
|---|---|
| `Words.dfy`, `Bitmap.dfy`, `StatusWords.dfy`, `BlockList.dfy`, `DmaBuffer.dfy`, `DmaClients.dfy`, `DmaPlain.dfy`, `SecondFree.dfy`, `SearchGap.dfy` | the FX3 DMA buffer allocator, in layers: 32-bit words seen as bits, bits seen as a set of live blocks, the loops over the packed words, the in-use list inside the heap memory, the buffer manager itself, whole runs of it with clients that write into their buffers, what freeing a block twice does, and a run in which it refuses a request although there is room |
| `MemCopy.dfy` | the overlap-safe memory copy of the FX3 firmware |
| `SortedSeq.dfy`, `DataContainer.dfy`, `ContainerModel.dfy`, `DataRanges.dfy` | the sorted data container of the plotting library, its agreement with a plain multiset over whole runs of all its operations, and its range queries |
| `Plottable.dfy` | rectangle selection and line drawing over the container's points |
| `Digits.dfy`, `LogPrintf.dfy`, `FormatMachine.dfy`, `AltPrintf.dfy` | the HAL's integer printer and its format state machine, and its other hexadecimal printer on 32-bit words |
| `WallClock.dfy` | settimeofday and gettimeofday of the HAL |
| `TransferCalls.dfy`, `TransferRing.dfy` | the order in which endpoint calls have to come, and the queue of overlapped bulk transfers in the host application that makes them |
| `FdTable.dfy` | the HAL's file descriptor table |

How the pieces are built. Code that updates state is a class or a method with the source's loops; its `ensures` equates the new state with a function of the old one, and the promises are lemmas about that function. What a caller relies on is also stated on the method itself in plain comparisons that its body does not use. Where a promise fails for some inputs, a lemma whose name ends in `ExactlyWhen` says for which, and another one gives such an input.

- The allocator keeps a ghost list of live blocks. `BufferManager.Valid` says, for every reachable state, that the blocks own disjoint lines, that a bitmap bit is set exactly for the marked lines of a live block, and, with error detection on, that the list in the heap holds exactly the live blocks newest first, that each header and footer lies in its own block's lines, and that the allocation counter is the free counter plus the length of the list (modulo 2^32). Damage to the signature words is allowed by `Valid` and is what `Intact` speaks about, so that the corruption check is proved in both directions. `DmaClients.RunScript` puts it together: over any script of allocations, releases and writes inside what the clients hold, no damage is ever reported and the final corruption check succeeds.
- The search of the allocator is not complete from every start: `SearchGap.RoomIsRefused` is, for every heap of at least 64 lines (the memory maps have 1024 and 7168), a run from the empty heap with requests of permitted size, after which a request is refused although there is room; `Bitmap.AllocFailsExactlyWhen` says when it fails.
- Any line may be freed at any time: `Bitmap.FreeStepSound` says what it does to the blocks, a pointer into the middle of a block included, which leaves the front of that block live. With error detection on, the pointers of live blocks are covered, and of freed blocks whose lines have not been given away again. An immediate second free (`SecondFree.FreeTwice`) changes neither bits nor memory nor list but is counted. A later one follows links that may be out of date: `BlockList.UnlinkingKeepsListExactlyWhen` says when the in-use list survives it, and `SecondFree.FailingRun` is a run from the empty heap in which it does not.
- The initialisation of the bitmap marks the wrong lines of a partial last word unless 16 lines are missing (`DmaBuffer.TailWordRightExactlyWhen`). Both memory maps have heaps of whole kilobytes, where that branch is not reached, and the class is stated for such heaps.
- The comments on `removeBefore` and `removeAfter` say that points equal to the key go too. The code keeps them, and so does the model.
- `alt_file_locked` compares an unsigned counter with the signed high-water mark; the mark is never negative there because descriptors 0 to 2 are never free, which is part of `FdTable.Sound`.
- The transfer loop does not stop when a refill is rejected: it later waits for and finishes a slot without a transfer. `TransferRing.LegalExactlyWhen` says when that is so. The buffer passed to FinishDataXfer is the wrong one as soon as the loop is entered with two transfers in flight together (`TransferRing.PassedBufferRightExactlyWhen`), as with the application's queue of two.
- An instant before zero is clamped by gettimeofday only if its microseconds are negative, so that a clock set to before zero can run backwards at any rate from two ticks a second to a million. `WallClock.MonotoneExactlyWhen` says exactly when a clock never does, for every reset time and from every tick on; `WallClock.BeforeZeroRunsBackwards` and `WallClock.ThreeTicksRunBackwards` are two inputs for which it does.

Parameters that stand for what cannot be seen here: whether memory for the bitmap could be had, the tick counter and tick rate, the outcome of every endpoint call, the results of the device and file lookups and of driver callbacks, the capacity that the vector class reports, and the promise of a data type that its sort key is its main key. Plot coordinates are exact reals with a separate NaN (and, for pixels, an infinity). In the in-use list the five header fields are taken in the order in which the allocator assigns them; the structure itself belongs to the FX3 SDK and is not part of this model.

## Model

| member | source | states |
|---|---|---|
| Words.MeetsBit | fx3/cyfxtx.c:909 | the single-bit test with a shifted one reads exactly that bit of a word |
| Words.RangeMaskBit | fx3/cyfxtx.c:811-813 | subtracting two low masks leaves exactly the bit positions from..to |
| Words.LowMaskValue | fx3/cyfxtx.c:812 | the source's expression for a low mask, with its special case at 32, has exactly the wanted value |
| Words.SameBits | fx3/cyfxtx.c:909-927 | a status word is determined by its 32 bits |
| Bitmap.FirstRun | fx3/cyfxtx.c:907-930 | the leftmost run of clear bits in an interval; absent exactly when there is none |
| Bitmap.ClearRunIsUnowned | fx3/cyfxtx.c:897-924 | size+1 clear bits in a row: none of the lines after the first belongs to a live block, not even as its unmarked last line |
| Bitmap.ExtraBitNeeded | fx3/cyfxtx.c:916-921 | for no size are size clear bits enough: a block at the first of them can meet the last line of a live block, one behind it the first line of another |
| Bitmap.TwoLinesNeeded | fx3/cyfxtx.c:897-898 | a block of one line would leave no mark, and two such allocations in a row would give two clients the same line if and only if it is not the first line of a status word |
| Bitmap.TakeKeepsInv | fx3/cyfxtx.c:946-950 | marking size-1 bits of a found run adds exactly one new block and keeps the invariant |
| Bitmap.LiveRunLength | fx3/cyfxtx.c:1053-1066 | the bitmap alone gives the length of a live block |
| Bitmap.DropKeepsInv | fx3/cyfxtx.c:1068 | clearing that run removes exactly that block and keeps the invariant |
| Bitmap.CutKeepsInv | fx3/cyfxtx.c:1049-1068 | clearing the run from an inner line of a block leaves its front live, up to that line, and keeps the invariant |
| Bitmap.LiveDeterminesBits | fx3/cyfxtx.c:946-950 | the set of live blocks determines every bit |
| Bitmap.BitsDetermineLive | fx3/cyfxtx.c:1046-1068 | the bits determine the set of live blocks, although no size is stored |
| Bitmap.AllocStepSound | fx3/cyfxtx.c:897-950 | an allocation returns a block of the asked length that shares no line with any live block, or changes nothing |
| Bitmap.AllocFailsExactlyWhen | fx3/cyfxtx.c:900-944 | the search fails if and only if every run of size+1 clear bits straddles the search start |
| Bitmap.FirstFitFromTheBottom | fx3/cyfxtx.c:1070-1072 | from word 0 the search is a complete first fit |
| SearchGap.RoomIsRefused | fx3/cyfxtx.c:901-943 | from another word it is not: in every heap of at least 64 lines a run from the empty heap, with requests the 16-bit size allows, reaches a state that refuses two lines although lines 30 to 32 are clear |
| Bitmap.FreeStepSound | fx3/cyfxtx.c:1049-1073 | freeing the start of a live block removes it and nothing else; freeing an inner line cuts its block short; freeing a line whose bit is clear, as a second free does, changes no bit; the invariant holds after any free |
| Bitmap.AllocThenFree | fx3/cyfxtx.c:946-1073 | allocating and freeing the same block restores every bit and the live set |
| Bitmap.RunKeepsSound | fx3/cyfxtx.c:853-1079 | the invariant holds over every run of allocations and of frees of any lines |
| Bitmap.RunFromEmptyHeap | fx3/cyfxtx.c:853-1079 | from the empty heap, every run keeps blocks disjoint and bits exact, and one that ends with nothing live ends with every bit clear |
| StatusWords.BitsDetermineWords | fx3/cyfxtx.c:820-827 | equal bits mean equal status words, so what restores the bits restores the words |
| StatusWords.SetStatus | fx3/cyfxtx.c:798-839 | the word and mask loop gives exactly the bits start..start+count the value and leaves all others |
| StatusWords.ScanWords | fx3/cyfxtx.c:900-944 | the wrapping scan over words and bits returns the result of scanning bit by bit from the start word to the top and then from the bottom |
| StatusWords.FindClear | fx3/cyfxtx.c:900-944 | the scan over the packed words finds the leftmost run at or above the start word, else the leftmost run wholly below it, else nothing |
| StatusWords.WholeScanIsSearch | fx3/cyfxtx.c:900-944 | that scan finds the leftmost run above the start, else the leftmost run below it |
| StatusWords.CountSet | fx3/cyfxtx.c:1053-1066 | the counting loop returns the number of set bits in a row, for any line |
| BlockList.ListIsLive | fx3/cyfxtx.c:955-964 | following the links from the head visits exactly the live blocks, newest first, without repetition, and ends |
| BlockList.PushLinked | fx3/cyfxtx.c:953-967 | writing header, link and footer of a new block keeps the list well formed and all signatures as they were |
| BlockList.DropLinked | fx3/cyfxtx.c:1032-1040 | unlinking any block keeps the list of the others well formed and all signatures as they were |
| BlockList.UnlinkingAgain | fx3/cyfxtx.c:1032-1040 | taking a freed block out of the list once more changes no word |
| BlockList.UnlinkingKeepsListExactlyWhen | fx3/cyfxtx.c:1032-1040 | a free of a block that is no longer live, whatever its links lead to, leaves the list of the live blocks intact if and only if, where one link leads to a live block, the other one leads to that block's neighbour |
| BlockList.OwnLines | fx3/cyfxtx.c:892-898 | header and footer are disjoint and inside the block's own lines |
| BlockList.PayloadWrite | fx3/cyfxtx.c:953-971 | a client's write inside its payload breaks neither a link nor a signature |
| BlockList.SignatureWrite | fx3/cyfxtx.c:1167-1176 | a write over a signature leaves the links alone and shows in exactly that block |
| DmaBuffer.LinesFor | fx3/cyfxtx.c:897-898 | the lines of a block hold the bytes, are at least two, and are no more than needed |
| DmaBuffer.BlockBytes | fx3/cyfxtx.c:889-894 | the size with header and footer leaves room for the request and is a whole number of words, less than one word more than needed; without checks it is the request |
| DmaBuffer.TailWordRightExactlyWhen | fx3/cyfxtx.c:734-738 | the word written for a partial last word marks the missing lines if and only if 16 lines are missing |
| DmaBuffer.BufferManager.EnableChecks | fx3/cyfxtx.c:669-685 | checks and callback can be set only while the manager is not initialised |
| DmaBuffer.BufferManager.Init | fx3/cyfxtx.c:696-746 | initialisation gives the empty heap with search start 0, once |
| DmaBuffer.BufferManager.DeInit | fx3/cyfxtx.c:753-791 | gives back the uninitialised state |
| DmaBuffer.BufferManager.TakeLines | fx3/cyfxtx.c:897-950 | search and marking on the packed words are the abstract allocation step |
| DmaBuffer.BufferManager.LinkBlock | fx3/cyfxtx.c:953-971 | the header and footer writes extend the list by the new block, sign it, and touch no other block but for one link |
| DmaBuffer.BufferManager.Alloc | fx3/cyfxtx.c:853-977 | the whole allocation: abstract step, pointer, list, counter, signatures; every invariant is kept; with checks off or on the bytes asked for lie in the block's own lines, at the first line or between header and footer |
| DmaBuffer.BufferManager.UnlinkBlock | fx3/cyfxtx.c:1019-1043 | exactly the two unlinking writes of the header's links, the free counter, and a report exactly when the block is damaged |
| DmaBuffer.BufferManager.ClearLines | fx3/cyfxtx.c:1051-1073 | counting and clearing on the packed words are the abstract free step |
| DmaBuffer.BufferManager.Free | fx3/cyfxtx.c:986-1079 | the whole free: without checks for any pointer, with checks for pointers below the heap, of live blocks and of freed blocks whose lines are still free; return value, abstract step, list, reports; every invariant is kept, except by a second free, for which the counter, the exact memory and the exact condition for the list are given |
| DmaBuffer.BufferManager.CorruptionCheck | fx3/cyfxtx.c:1151-1182 | terminates, succeeds if and only if every live block carries both signatures, and otherwise reports the newest damaged block |
| DmaBuffer.BufferManager.Store | fx3/cyfxtx.c:969-971 | a client's store into its payload keeps every invariant and every signature |
| DmaClients.RunScript | fx3/cyfxtx.c:853-1182 | with error detection on, any script of allocations, releases and writes inside the held buffers keeps every invariant and every signature, no damage is reported, the buffers held are apart and in the heap, and the corruption check succeeds |
| DmaPlain.AllocThenFreePointer | fx3/cyfxtx.c:853-1079 | with checks off or on, freeing the pointer of an allocation gives back every bit and the live blocks |
| DmaPlain.RunPlain | fx3/cyfxtx.c:853-1079 | with checks off, any script of allocations and releases keeps every invariant, the buffers held are apart and in the heap, no word of the heap is written, and nothing held means every bit clear |
| DmaPlain.GivePlain | fx3/cyfxtx.c:986-1079 | with checks off, a release frees exactly the block behind the pointer |
| SecondFree.FreeTwice | fx3/cyfxtx.c:1019-1079 | with error detection on, a free and an immediate second one return the state of one free, list intact, but with the free counter one too high |
| SecondFree.FreeLoose | fx3/cyfxtx.c:1019-1079 | a later second free changes no bit and no live block, makes exactly the writes its old links ask for, and keeps the list exactly when these agree with it |
| SecondFree.LateSecondFree | fx3/cyfxtx.c:1019-1043 | whenever a block between two others is freed, then its newer neighbour, then the block again, the in-use list is broken |
| SecondFree.FailingRun | fx3/cyfxtx.c:853-1079 | from the empty heap, three small allocations and three such frees end with a broken list |
| MemCopy.Copy | fx3/cyfxtx.c:551-619 | for any count and any overlap the destination is the old source and all other memory is unchanged |
| SortedSeq.LowerBound | app/qcustomplot.h:2932 | the first position whose key is not below the given one |
| SortedSeq.UpperBound | app/qcustomplot.h:2946 | the first position whose key is above the given one |
| SortedSeq.MergeSorted | app/qcustomplot.h:2855 | merging two sorted parts gives a sorted whole |
| SortedSeq.MergePermutes | app/qcustomplot.h:2855 | merging loses and invents no point |
| SortedSeq.MergeIsStable | app/qcustomplot.h:2855 | points of one key keep their order, those of the left part first |
| SortedSeq.Sort | app/qcustomplot.h:3022-3025 | an ordered permutation; the order among equal keys is left open |
| DataContainer.AddedIsSortedUnion | app/qcustomplot.h:2836-2857 | adding sorted points by prepending or merging gives their sorted union with the old ones |
| DataContainer.AddedOrder | app/qcustomplot.h:2836-2857 | among points of one key the new ones come first if all new points go in front, else behind the old ones |
| DataContainer.Container.PreallocateGrow | app/qcustomplot.h:3353-3366 | grows the hidden room by the asked amount and the step of its history, and leaves the visible sequence unchanged |
| DataContainer.Container.Squeeze | app/qcustomplot.h:3038-3052 | gives up the hidden room and leaves the visible sequence unchanged |
| DataContainer.Container.PerformAutoSqueeze | app/qcustomplot.h:3383-3403 | for any capacity leaves the visible sequence unchanged and drops the room exactly when there is too much of it |
| DataContainer.Container.SetAutoSqueeze | app/qcustomplot.h:2787-2795 | changes nothing visible, and drops the room only when switched on with too much of it |
| DataContainer.Container.Resort | app/qcustomplot.h:3022-3025 | the visible points are the same, sorted again, and the room is untouched |
| DataContainer.Container.SetVector | app/qcustomplot.h:2820-2827 | the visible points become the given ones, sorted |
| DataContainer.Container.SetContainer | app/qcustomplot.h:2804-2808 | the visible points become those of the other container |
| DataContainer.Container.AddContainer | app/qcustomplot.h:2836-2857 | the exact visible sequence after adding another container |
| DataContainer.Container.AddVector | app/qcustomplot.h:2868-2896 | the union as a multiset, kept sorted; the exact sequence for sorted input |
| DataContainer.Container.AddPoint | app/qcustomplot.h:2905-2920 | the exact visible sequence after adding one point: behind all others when none is above it, else in front of the first that is not below it |
| DataContainer.Container.RemoveBefore | app/qcustomplot.h:2929-2936 | keeps exactly the points with keys at or above the given one |
| DataContainer.Container.RemoveAfter | app/qcustomplot.h:2944-2951 | keeps exactly the points with keys at or below the given one |
| DataContainer.Container.RemoveRange | app/qcustomplot.h:2961-2971 | drops exactly the closed key interval, and nothing when it is empty or reversed |
| DataContainer.Container.RemoveKey | app/qcustomplot.h:2983-2995 | takes out the first point with exactly that key, if there is one |
| DataContainer.WithoutKeyLosesOne | app/qcustomplot.h:2985-2992 | one point with the key is lost exactly when there is any, and the rest stays sorted |
| DataContainer.Container.FindBegin | app/qcustomplot.h:3070-3079 | the position of the lower bound, one lower in the expanded form |
| DataContainer.Container.FindEnd | app/qcustomplot.h:3097-3106 | the position of the upper bound, one higher in the expanded form |
| DataContainer.FoundRange | app/qcustomplot.h:3070-3106 | the range between both is exactly the points with lo <= key <= hi; the expanded form adds at most one neighbour on each side |
| SortedSeq.WhereCounts | app/qcustomplot.h:2929-2971 | a removal keeps the number of every point that stays and drops all others, as on a plain multiset |
| ContainerModel.Apply | app/qcustomplot.h:2787-3052 | every operation of the class (set, add of vectors sorted or not, of containers and of points, the four removals, clear, squeeze, auto-squeeze, changing points and sorting again) keeps the container valid and does to the multiset of its points what the plain model does |
| ContainerModel.RunScript | app/qcustomplot.h:2787-3052 | over any run of them the hidden room stays within the vector, the visible points stay sorted, and they are at every step the points of the plain multiset |
| DataRanges.LeastIsLeast | app/qcustomplot.h:3200-3222 | the value tracked by the scans is the least number that is not NaN and has the right sign |
| DataRanges.GreatestIsGreatest | app/qcustomplot.h:3200-3222 | and the greatest |
| DataRanges.KeyRange | app/qcustomplot.h:3124-3228 | the two-ended scan and the full scan return the least and the greatest key of the points with a value, of the negative ones or the positive ones where these are asked for, and the flag says whether there is one |
| DataRanges.ValueRange | app/qcustomplot.h:3247-3324 | narrowing by binary search returns the least low and the greatest high value of all points in the key range, in every sign domain, and the flag says whether there are both |
| DataRanges.NarrowingLosesNothing | app/qcustomplot.h:3262-3266 | the points left out by the binary search are outside the key range |
| Plottable.SelectTestRect | app/qcustomplot.h:4485-4525 | the ranges before simplification are the maximal runs of exactly the points whose key and value lie between the bounds, bounds included |
| Plottable.RunsAreMaximal | app/qcustomplot.h:4508-4522 | no such range can be made longer at either end |
| Plottable.RunsAreUnique | app/qcustomplot.h:4508-4522 | the selected points leave no choice: there is only one list of such ranges |
| Plottable.DrawLines | app/qcustomplot.h:4671-4690 | the fast path draws exactly the edges between neighbouring points of which neither has a NaN coordinate, in order |
| Plottable.DrawPolylines | app/qcustomplot.h:4691-4707 | the polyline path draws exactly the edges between neighbouring points without NaN and without infinite y, in order |
| Plottable.PathsAgreeExactlyWhen | app/qcustomplot.h:4671-4707 | both paths draw the same edges if and only if no edge of the fast path has an end with infinite y |
| Plottable.InfiniteEndSeparatesPaths | app/qcustomplot.h:4671-4707 | two points, one of infinite y, for which the fast path draws an edge and the other one none |
| Digits.ParseText | fpga/software/nios_app_bsp/HAL/src/alt_log_printf.c:250-296 | canonical digits parse back to the value and begin with 0 only for zero |
| Digits.TextIsDigits | fpga/software/nios_app_bsp/HAL/src/alt_log_printf.c:280-296 | they are digits of the base, all letters in the case asked for |
| Digits.EmitIsText | fpga/software/nios_app_bsp/HAL/src/alt_log_printf.c:280-296 | dividing by falling powers from the largest one emits the canonical digits |
| LogPrintf.CountDigits | fpga/software/nios_app_bsp/HAL/src/alt_log_printf.c:246-254 | counts the digits, ends with the largest power of the base, and no product leaves 32 bits |
| LogPrintf.PrintDigits | fpga/software/nios_app_bsp/HAL/src/alt_log_printf.c:279-296 | the emitting loop prints the last n digits of its value |
| LogPrintf.RepChar | fpga/software/nios_app_bsp/HAL/src/alt_log_printf.c:106-110 | repeats a character, and prints nothing for a count that is not positive |
| LogPrintf.PrintInteger | fpga/software/nios_app_bsp/HAL/src/alt_log_printf.c:204-297 | blanks, minus, zeros and digits in this order, blanks only without the zero flag and zeros only with it, padding exactly up to the width, no leading 0 otherwise |
| LogPrintf.TextWidth | fpga/software/nios_app_bsp/HAL/src/alt_log_printf.c:256-277 | the length is the larger of the width and the digits with their sign |
| LogPrintf.ReadsBack | fpga/software/nios_app_bsp/HAL/src/alt_log_printf.c:204-297 | for every value, base, signedness, padding and width the text reads back as the value |
| AltPrintf.DigitIsNibble | fpga/software/nios_app_bsp/HAL/src/alt_printf.c:98-106 | masking and shifting a 32-bit word yields the hexadecimal digit of its number at that position, and the mask leaves nothing exactly when that digit is zero |
| AltPrintf.PrintHex | fpga/software/nios_app_bsp/HAL/src/alt_printf.c:84-113 | the printer prints the canonical hexadecimal digits of every 32-bit word |
| AltPrintf.HexPrintersAgree | fpga/software/nios_app_bsp/HAL/src/alt_printf.c:84-113 | given the same word, both printers print the same text for %x without a width |
| FormatMachine.Printf | fpga/software/nios_app_bsp/HAL/src/alt_log_printf.c:114-340 | the loop with its three states is the step function folded over the format |
| FormatMachine.PrintConversion | fpga/software/nios_app_bsp/HAL/src/alt_log_printf.c:198-334 | what each conversion letter prints, and that exactly the eight known letters take an argument |
| FormatMachine.NumbersReadBack | fpga/software/nios_app_bsp/HAL/src/alt_log_printf.c:204-334 | d and i print a signed number, u an unsigned one, o an octal one, x and X hexadecimal ones in small and capital letters |
| FormatMachine.NumbersLaidOut | fpga/software/nios_app_bsp/HAL/src/alt_log_printf.c:204-334 | with the sign and the padding that zero flag and width ask for |
| FormatMachine.TextsAreRight | fpga/software/nios_app_bsp/HAL/src/alt_log_printf.c:319-334 | c prints the character and s the string, after blanks that fill the width |
| FormatMachine.RunWidth | fpga/software/nios_app_bsp/HAL/src/alt_log_printf.c:172-193 | reading the decimal digits of a width yields that width |
| FormatMachine.RunFraction | fpga/software/nios_app_bsp/HAL/src/alt_log_printf.c:172-193 | digits behind the dot change nothing but the unused fraction |
| FormatMachine.RunMeaning | fpga/software/nios_app_bsp/HAL/src/alt_log_printf.c:114-340 | every format string made of literals, %% and fields (zero flag, width, digits behind a dot, an l, and any letter that ends the field) prints exactly the meaning of its pieces, in order, with the arguments in order; the dot, its digits and the l make no difference |
| WallClock.Clock.SetTimeOfDay | fpga/software/nios_app_bsp/HAL/src/alt_settod.c:72-96 | stores the difference to the ticks, or fails without a clock and changes nothing |
| WallClock.Clock.GetTimeOfDay | fpga/software/nios_app_bsp/HAL/src/alt_gettod.c:71-124 | the two loops return the same instant with its microseconds in range, or zero when the instant and its microseconds are both negative |
| WallClock.SetThenGetAtOnce | fpga/software/nios_app_bsp/HAL/src/alt_settod.c:80-89 | at every rate, setting and reading at the same tick gives the time set |
| WallClock.SetThenGet | fpga/software/nios_app_bsp/HAL/src/alt_settod.c:80-89 | with a rate that divides a million, set and later get give exactly the time set plus the elapsed microseconds, normalised and unclamped |
| WallClock.ShownIsReading | fpga/software/nios_app_bsp/HAL/src/alt_gettod.c:89-112 | the unbounded clock of the next rows is what reading the clock returns, for any reset time |
| WallClock.ShownIsSum | fpga/software/nios_app_bsp/HAL/src/alt_gettod.c:89-112 | from zero on it shows the reset time plus the uptime |
| WallClock.ExactExactlyWhen | fpga/software/nios_app_bsp/HAL/src/alt_gettod.c:91-93 | every tick counts the same microseconds if and only if the rate divides a million |
| WallClock.MonotoneExactlyWhen | fpga/software/nios_app_bsp/HAL/src/alt_gettod.c:91-107 | for every reset time and from every tick on, the clock never runs backwards if and only if the rate exceeds a million, or divides it and the reset time has no microseconds before zero that a tick can make up for, or the first second in which they fall short is not before second zero |
| WallClock.MonotoneFromZeroExactlyWhen | fpga/software/nios_app_bsp/HAL/src/alt_gettod.c:91-107 | from any tick at which the instant is not before zero, whatever the reset time: if and only if the rate divides a million or exceeds it |
| WallClock.BeforeZeroRunsBackwards | fpga/software/nios_app_bsp/HAL/src/alt_gettod.c:95-107 | set to five seconds before zero at tick 1, at a million ticks a second, the clock reads zero at tick 1000000 and minus four seconds at the next |
| WallClock.ThreeTicksRunBackwards | fpga/software/nios_app_bsp/HAL/src/alt_gettod.c:91-93 | at three ticks a second the boot clock falls from 1.999999 seconds at tick 3 to 1.333332 at tick 4 |
| TransferRing.SendAndReadBulk | app/mainwindow.cpp:252-332 | for every count, queue size and outcome: the request goes out once, behind the first min(Q,n) begins and before everything else; every finish directly follows the wait for its slot, or the abort after a failed one; begins, waits and finishes are those of the buffers 0 to n-1 in order with slot k mod Q, or of none when a first begin is rejected; the last call is an abort; and the returned status |
| TransferRing.RingIsSound | app/mainwindow.cpp:252-326 | as long as every finished buffer's begin was accepted: each buffer is begun once and finished once in order in slot k mod Q, no slot is used twice at a time, only slots with a transfer are waited for, at most min(Q,n) are in flight and none at the end |
| TransferRing.LegalExactlyWhen | app/mainwindow.cpp:252-326 | the calls wait for and finish only transfers that are in flight if and only if every begin is accepted, or one of the first ones is rejected and the loop is not entered |
| TransferRing.RejectedRefillIsWaitedFor | app/mainwindow.cpp:307-317 | three transfers in the application's queue of two, the third begin rejected: its empty slot is waited for |
| TransferRing.StoppedRunFinishesNothing | app/mainwindow.cpp:257-276 | when one of the first begins is rejected, the accepted ones are never finished |
| TransferRing.PassedRightSoFar | app/mainwindow.cpp:302 | after k steps every FinishDataXfer so far got its own buffer if and only if k <= n - min(Q,n) + 1 |
| TransferRing.PassedBufferRightExactlyWhen | app/mainwindow.cpp:302 | every FinishDataXfer of a call gets the buffer it finishes if and only if min(Q,n) <= 1 or the loop is not entered |
| TransferRing.SecondTransferGetsFirstBuffer | app/mainwindow.cpp:16 | with the application's queue of two and two transfers, both begun, the second FinishDataXfer gets the first buffer |
| FdTable.BootIsSound | fpga/software/nios_app_bsp/HAL/src/alt_dev.c:118-150 | the boot table satisfies the invariant |
| FdTable.FirstFree | fpga/software/nios_app_bsp/HAL/src/alt_get_fd.c:76-90 | the lowest free descriptor |
| FdTable.OpenIsSafe | fpga/software/nios_app_bsp/HAL/src/alt_open.c:105-171 | a successful device open never coexists with another exclusive holder and disturbs no other descriptor; a failed open leaves every device and flag as it was |
| FdTable.OpenFailsExactlyWhen | fpga/software/nios_app_bsp/HAL/src/alt_open.c:118-165 | open fails if and only if nothing is found, the table is full, some descriptor holds the device exclusively, or the driver refuses |
| FdTable.OpenMeans | fpga/software/nios_app_bsp/HAL/src/alt_open.c:105-171 | index, device, flags and private data of a successful open, and the error number of each of the four failures |
| FdTable.RedirectMeans | fpga/software/nios_app_bsp/HAL/src/alt_io_redirect.c:58-72 | what the reserved descriptor holds after a redirection, and what it keeps when the open fails |
| FdTable.OpenThenRelease | fpga/software/nios_app_bsp/HAL/src/alt_release_fd.c:44-51 | releasing what was opened restores every device and flag |
| FdTable.StepKeepsSound | fpga/software/nios_app_bsp/HAL/src/alt_io_redirect.c:58-72 | open, release, redirect and locking keep every descriptor above the mark free and 0 to 2 in use |
| FdTable.RunKeepsSound | fpga/software/nios_app_bsp/HAL/src/alt_get_fd.c:54-101 | so does every run of them |
| FdTable.Descriptors.GetFd | fpga/software/nios_app_bsp/HAL/src/alt_get_fd.c:54-101 | claims the lowest free descriptor and raises the mark, or reports a full table |
| FdTable.Descriptors.ReleaseFd | fpga/software/nios_app_bsp/HAL/src/alt_release_fd.c:44-51 | frees a descriptor above 2 and no other |
| FdTable.Descriptors.FileLocked | fpga/software/nios_app_bsp/HAL/src/alt_open.c:64-92 | the scan up to the mark finds an exclusive holder if and only if there is one in the whole table |
| FdTable.Descriptors.Open | fpga/software/nios_app_bsp/HAL/src/alt_open.c:105-171 | the whole open is the abstract step; when it is accepted, the lowest free descriptor gets the device, unlocked, with the flags given, and otherwise every device and flag stays |
| FdTable.Descriptors.RedirectFd | fpga/software/nios_app_bsp/HAL/src/alt_io_redirect.c:58-72 | when the open is accepted, the reserved descriptor gets its device, flags and private data and every other one keeps its own; otherwise all devices and flags stay |

## Left out

- Mutexes, ThreadX byte pools and interrupt context in fx3/cyfxtx.c: each allocator call is atomic and its lock is obtained; the driver heap list repeats the buffer list.
- DmaBuffer.BufferManager.Init: heaps that are not whole kilobytes are not initialised in the class, because the tail word is then wrong; the exact condition is DmaBuffer.TailWordRightExactlyWhen.
- DmaBuffer.BufferManager.Free: with error detection on, pointers into the heap are not covered if they are neither those of live blocks nor those of freed blocks whose lines are still free, because the source then follows whatever words clients have written in front of them.
- DmaBuffer.BufferManager.CorruptionCheck: link words and sizes that a client has overwritten are not modelled; the source then follows them blindly.
- FormatMachine.Printf: the width is an unbounded integer, and an argument of the wrong kind reads as 0 or as the empty string, where C leaves both undefined; characters go to a string instead of a device.
- AltPrintf.PrintHex: the number of a word is what its bits spell in binary; characters go to a string instead of a device.
- WallClock.SetThenGet: assumes that ticks times microseconds per tick fit 64 bits and that the result leaves one second below the limit of a 32-bit time.
- WallClock.MonotoneExactlyWhen: speaks about unbounded arithmetic, which is what the code computes until a counter wraps (WallClock.ShownIsReading).
- TransferRing.SendAndReadBulk: time-outs, event handles and the bytes received are not modelled.
- DataContainer.Container.AddContainer: adding a container to itself is excluded.
- DataContainer.Container.Squeeze: giving back memory behind the points has no visible effect and is not represented.
- DataRanges.ValueRange: keys are numbers, never NaN, and the key range is normalised, as the range class makes it; the three copies of each loop, one per sign domain, are one loop with the domain as a parameter.
- Plottable.SelectTestRect: pixel conversion is taken as given ranges; the final simplification of the selection is declared elsewhere and is not part of this model.
- alt_fd_lock: its scan misses the topmost descriptor, so exclusive flags are taken as set arbitrarily by their holders.
- alt_printf formats other than %x, the logging helpers, driver callbacks, cache maintenance, USB descriptors, GPIF tables, widgets and painting: foreign code, constants, or nothing to prove beyond one body.
- Floating-point rounding: reals are exact.
