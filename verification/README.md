# Verified models of SkylineSystem's algorithmic cores

This project models, in Dafny 4.11, the parts of SkylineSystem in which most of the arithmetic,
branching and shared state is, and proves what they promise. `dafny verify dfyconfig.toml` checks all of
it.

* **Integer arithmetic of the compiler runtime** (`RestoringDivision`, `KnuthDivision`,
  `DoubleDivision`, `TwoWordDivision`, `SignedDivision`, `Multiplication`, on `Bits` and `Arith`). Words
  are natural numbers of any width, wrap-around is written out, and the results hold for the 32-, 64-
  and 128-bit instances alike. The divisor is never zero, as the code demands.
* **SAF archives** (`SafFormat`, `SafWriter`, `SafReader`): the writer of saf-make with its bump offset
  and back-patched child tables, the reader of saf-extract, and the round trip of whole trees.
* **Notepad** (`NoteText`, `Notepad`): the array of terminated rows, the lines it stands for, and the
  flat text that both refine.
* **Atomic operations** (`Lanes`, `Atomics`): load-reserved/store-conditional and compare-exchange retry
  loops of any number of threads, as a state machine with an arbitrary scheduler. A store to the word
  ends every reservation of it, and a store-conditional may fail for no reason. A whole-word operation is
  one on the lane of all bits.
* **Buffered streams** (`FileStream`, `StreamLock`): `fread`, `fseek` and `ftell` over a kernel that
  delivers short reads, and any number of threads on one stream's spin lock.
* **Civil dates and decimal numbers** (`CivilDate`, `Decimal`).
* **Word-at-a-time strings and block copies** (`WordBytes`, `WordStrings`, `BlockCopy`), little-endian,
  on a memory whose addresses are indices, whose size is a whole number of words, and whose address 0 is
  the null pointer.
* **Line and circle drawing** (`Raster`).

Where the code does less than one might expect, the model follows the code and the exact condition is
proved: `CivilFromDays` (the last day of a 400-year era, huge years), `RightExactly` (overlapping
moves), `SeekExactly` (rejected seeks), `InstallExactly` (an output that exists or has no folder to be
in), `InsertThenBackspace` and `EnterThenBackspace` (full lines and full documents), `CompareMaskExact`
(the sign-bit comparison). The comment on `wm_read_datetime` names a well-known algorithm whose last
term divides by 146096; the code divides by 146097, and the model does what the code does.

Some predicates are written as `forall i :: Mark(x, i) ==> ...` with a mark that is always true. They
mean what stands behind the arrow; the mark keeps the verifier from unfolding them except where a proof
mentions it.

## Model

| member | source | states |
|---|---|---|
| `RestoringDivision.CompareMaskMeaning` | kernel/cc-runtime/src/cc-runtime.c:3278-3283 | for `r < 2d`, with `d` below the top bit or `r` at or above it, the mask is all ones if `r >= d` and zero otherwise, so `d & s` and `s & 1` are the conditional subtrahend and quotient bit |
| `RestoringDivision.CompareMaskExact` | kernel/cc-runtime/src/cc-runtime.c:3281-3281 | for all `d` and `r` the sign-bit test answers correctly if and only if `r - d` is below half the range and `d - r` is not above it |
| `RestoringDivision.CompareMaskFails` | kernel/cc-runtime/src/cc-runtime.c:3281-3281 | concrete pairs (3 against 200 in 8 bits, both ways round) for which the test taken alone is wrong, once in each direction |
| `RestoringDivision.StartShiftFromClz` | kernel/cc-runtime/src/cc-runtime.c:3264-3270 | the leading-zero difference plus one is a start shift whose leading part is below the divisor, and a divisor with its top bit set only meets a dividend with its top bit set |
| `RestoringDivision.ClzOrder` | kernel/cc-runtime/src/cc-runtime.c:3265-3267 | leading-zero counts decide `n < d` in the direction the early return needs |
| `RestoringDivision.ClzOne` | kernel/cc-runtime/src/cc-runtime.c:3268-3269 | `N - 1` leading zeros mean `d == 1`, and only that |
| `RestoringDivision.RestoringStep` | kernel/cc-runtime/src/cc-runtime.c:3275-3284 | one branch-free turn keeps: consumed dividend = quotient so far · d + r, `r < d`, and the register pair holds the rest |
| `RestoringDivision.Restore` | kernel/cc-runtime/src/cc-runtime.c:3272-3286 | from any sound start shift the loop ends with the mathematical quotient and remainder |
| `RestoringDivision.UDiv` | kernel/cc-runtime/src/cc-runtime.c:3261-3287 | at every width, `n / d` for all `n` and all `d != 0` |
| `RestoringDivision.UMod` | kernel/cc-runtime/src/cc-runtime.c:3293-3318 | at every width, `n % d` for all `n` and all `d != 0` |
| `KnuthDivision.CorrectionTest` | kernel/cc-runtime/src/cc-runtime.c:3631-3632 | `q * vn0 > b * rhat + n` holds exactly when `q` exceeds the true digit |
| `KnuthDivision.Estimate` | kernel/cc-runtime/src/cc-runtime.c:3627-3629 | the first estimate is at least the true digit and at most `b + 1` |
| `KnuthDivision.TestFitsWord` | kernel/cc-runtime/src/cc-runtime.c:3632-3632 | neither side of the correction test leaves the word while it is read |
| `KnuthDivision.LargeRhat` | kernel/cc-runtime/src/cc-runtime.c:3635-3636 | once `rhat` has outgrown a digit, the test could only say "not too large", so leaving the loop is right |
| `KnuthDivision.QuotientDigit` | kernel/cc-runtime/src/cc-runtime.c:3627-3637 | the loop ends with the exact quotient digit after at most two corrections |
| `KnuthDivision.WrappedRemainder` | kernel/cc-runtime/src/cc-runtime.c:3639-3639 | the remainder computed with wrapping products is the true one |
| `KnuthDivision.NormalizedDivisor` | kernel/cc-runtime/src/cc-runtime.c:3607-3610 | shifting by the leading-zero count sets the top bit and loses no bit |
| `KnuthDivision.NormalizedHigh` | kernel/cc-runtime/src/cc-runtime.c:3611-3611 | the shifted-in bits of the low word make the high word of the scaled dividend, still below the divisor |
| `KnuthDivision.DivideNormalized` | kernel/cc-runtime/src/cc-runtime.c:3619-3654 | both digits of a normalized division: exact quotient and remainder |
| `KnuthDivision.UDiv2By1` | kernel/cc-runtime/src/cc-runtime.c:3596-3655 | for all `u1 < v`: quotient and remainder of the two-word dividend, with and without normalization |
| `DoubleDivision.PreDivision` | kernel/cc-runtime/src/cc-runtime.c:3695-3700 | dividing the high word first leaves a two-by-one division with the same remainder |
| `DoubleDivision.ClzHigh` | kernel/cc-runtime/src/cc-runtime.c:3706-3708 | leading zeros of the high halves are those of the whole words |
| `DoubleDivision.LongDivisionStep` | kernel/cc-runtime/src/cc-runtime.c:3712-3725 | one turn of the branch-free loop keeps: `a` = quotient so far · b · 2^(shift + 1) + dividend, with the dividend below that multiple of `b` |
| `DoubleDivision.DivideLong` | kernel/cc-runtime/src/cc-runtime.c:3706-3728 | the loop for divisors of more than one word: exact quotient and remainder |
| `DoubleDivision.UDivMod` | kernel/cc-runtime/src/cc-runtime.c:3673-3729 | all paths together: `a / b` and `a % b` for every `a` and every `b != 0` |
| `TwoWordDivision.PairShiftIn` | kernel/cc-runtime/src/cc-runtime.c:3535-3539 | shifting word by word with the carried top bit shifts the pair |
| `TwoWordDivision.PairShrShort` | kernel/cc-runtime/src/cc-runtime.c:3461-3462 | the two-word right shift assembled from word shifts |
| `TwoWordDivision.PairShlShort` | kernel/cc-runtime/src/cc-runtime.c:3458-3459 | the two-word left shift assembled from word shifts |
| `TwoWordDivision.PairShiftLong` | kernel/cc-runtime/src/cc-runtime.c:3495-3501 | both shifts when they cross the word boundary |
| `TwoWordDivision.EmptyLowDivisor` | kernel/cc-runtime/src/cc-runtime.c:3423-3433 | division of `K 0` by `K 0` is division of the high words |
| `TwoWordDivision.HighPowerOfTwo` | kernel/cc-runtime/src/cc-runtime.c:3437-3444 | a power of two in the high word divides by shift and mask |
| `TwoWordDivision.LowPowerOfTwo` | kernel/cc-runtime/src/cc-runtime.c:3468-3477 | a power of two in the low word divides by shift and mask |
| `TwoWordDivision.RestorePair` | kernel/cc-runtime/src/cc-runtime.c:3533-3554 | the two-word restoring loop refines the one-word loop at double width |
| `TwoWordDivision.SetUp` | kernel/cc-runtime/src/cc-runtime.c:3485-3501 | the three cases of the start shift all produce the shifted pair |
| `TwoWordDivision.DivideByHighWord` | kernel/cc-runtime/src/cc-runtime.c:3413-3462 | all branches for a divisor with empty low word |
| `TwoWordDivision.DivideByLowWord` | kernel/cc-runtime/src/cc-runtime.c:3464-3501 | all branches for a divisor with empty high word |
| `TwoWordDivision.DivideByPair` | kernel/cc-runtime/src/cc-runtime.c:3502-3526 | the branch for a divisor with both words |
| `TwoWordDivision.UDivModPair` | kernel/cc-runtime/src/cc-runtime.c:3385-3554 | all special cases and the loop agree with mathematical division, for every dividend and every non-zero divisor |
| `SignedDivision.ConditionalNegateMeaning` | kernel/cc-runtime/src/cc-runtime.c:1286-1289 | xor with the sign mask, then subtracting it, negates modulo 2^n under the all-ones mask and does nothing under zero |
| `SignedDivision.PatternRoundTrip` | kernel/cc-runtime/src/cc-runtime.c:1390-1401 | reading a two's complement pattern gives back the number it was made from |
| `SignedDivision.Magnitude` | kernel/cc-runtime/src/cc-runtime.c:1392-1395 | the masked operand is the absolute value, also for the minimum |
| `SignedDivision.TruncatedUnique` | kernel/cc-runtime/src/cc-runtime.c:1388-1388 | there is only one truncating quotient and remainder |
| `SignedDivision.SignedFromUnsigned` | kernel/cc-runtime/src/cc-runtime.c:1392-1400 | restoring the signs of an unsigned quotient and remainder gives the signed ones |
| `SignedDivision.QuotientRange` | kernel/cc-runtime/src/cc-runtime.c:1388-1400 | the true quotient leaves the range for MIN / -1 only |
| `SignedDivision.DivModDouble` | kernel/cc-runtime/src/cc-runtime.c:1390-1401 | truncating division, remainder with the dividend's sign; MIN / -1 wraps to MIN with remainder 0 |
| `SignedDivision.DivModPair` | kernel/cc-runtime/src/cc-runtime.c:1282-1308 | the same for the two-word forms `__divXi3` and `__modXi3` |
| `Multiplication.SchoolProduct` | kernel/cc-runtime/src/cc-runtime.c:2501-2512 | the four digit products with their carries add up to the product of the words |
| `Multiplication.ProductDigits` | kernel/cc-runtime/src/cc-runtime.c:2504-2509 | a digit product plus a carried digit does not overflow a word |
| `Multiplication.HighHalfFits` | kernel/cc-runtime/src/cc-runtime.c:2511-2512 | the high half of the product fits its word |
| `Multiplication.MulWords` | kernel/cc-runtime/src/cc-runtime.c:2497-2514 | high and low word are the exact product |
| `Multiplication.CrossProducts` | kernel/cc-runtime/src/cc-runtime.c:2524-2525 | adding the cross products to the high word gives the product modulo 2^(4h) |
| `Multiplication.MulDouble` | kernel/cc-runtime/src/cc-runtime.c:2518-2527 | `__multi3` returns the product wrapped to the signed range |
| `Multiplication.QuotientTest` | kernel/cc-runtime/src/cc-runtime.c:2463-2467 | the comparison with a quotient of the limit is the comparison with the product |
| `Multiplication.MulOverflow` | kernel/cc-runtime/src/cc-runtime.c:2440-2470 | the flag is set if and only if the true product is out of range, and the result is always the wrapped product |
| `Multiplication.NoOverflowIsExact` | kernel/cc-runtime/src/cc-runtime.c:2445-2445 | a product in range is returned as it is |
| `SafFormat.WordRoundTrip` | res/saf/saf.h:9-28 | a 64-bit field written little-endian reads back |
| `SafFormat.EncodeByte` | res/saf/saf.h:9-28 | byte i of a field has the weight 256 to the i |
| `SafFormat.ChildCountIs` | res/saf/saf-make.c:57-73 | the count is the number of entries other than "." and ".." |
| `SafFormat.ChildrenBehindParent` | res/saf/saf-make.c:112-127 | every child offset lies behind its parent's structure, so following children always moves forward |
| `SafFormat.EncodesFrame` | res/saf/saf-make.c:136-161 | what is encoded in a region does not depend on the bytes outside it |
| `SafFormat.TilesDisjoint` | res/saf/saf-make.c:50-55 | pieces that tile a range do not overlap |
| `SafFormat.EntryTiles` | res/saf/saf-make.c:112-161 | the structures and bodies of a node and its descendants tile its extent |
| `SafFormat.ArchiveTiles` | res/saf/saf-make.c:189-200 | node structures and file bodies tile the archive from 0 to `curr_offset` without gap or overlap |
| `SafWriter.Archive.IncOffset` | res/saf/saf-make.c:50-55 | succeeds exactly when the size limit holds, and bumps the offset |
| `SafWriter.Archive.WriteHeader` | res/saf/saf-make.c:113-128 | writes the header fields of one node and nothing else |
| `SafWriter.Archive.WriteFile` | res/saf/saf-make.c:149-160 | writes size, address and body of one file and nothing else |
| `SafWriter.Archive.PatchChildren` | res/saf/saf-make.c:139-141 | the back-patch writes the count and the used slots of its own node, and nothing else, even with spare slots |
| `SafWriter.Archive.MakeFile` | res/saf/saf-make.c:144-161 | fails exactly when the file does not fit; otherwise the file is encoded at the old offset |
| `SafWriter.Archive.MakeFolder` | res/saf/saf-make.c:130-142 | fails exactly when the subtree does not fit; otherwise the subtree is encoded at the old offset |
| `SafWriter.Archive.MakeNode` | res/saf/saf-make.c:75-165 | lays out a whole directory in order, skips other entries, and returns the offsets of the kept ones |
| `SafWriter.Archive.MakeArchive` | res/saf/saf-make.c:188-200 | the finished archive is the root's encoding, its magic number, size and flag included, and nothing more; the root's name is what the memory held before |
| `SafReader.WalkEncoded` | res/saf/saf-extract.c:30-58 | walking an encoded node gives its entry back: nesting, order, bytes, and as its name the bytes before the first zero byte of the field |
| `SafReader.CStringSpells` | res/saf/saf-extract.c:37-37 | a name is its field up to the first zero byte, in order |
| `SafReader.ArchiveRoundTrip` | res/saf/saf-extract.c:30-58 | walking a written archive from its root yields the input without the entries that are neither file nor folder; a recursion depth of the archive size is enough, so the walk ends |
| `SafReader.WalkedSound` | res/saf/saf-extract.c:32-33 | on any buffer, a walk that succeeds has met only nodes that lie in the buffer and have the magic number |
| `SafReader.InstallFlatten` | res/saf/saf-extract.c:36-57 | extraction to where nothing is, in a folder, succeeds and creates exactly the paths of the tree |
| `SafReader.FlattenDir` | res/saf/saf-extract.c:36-57 | the created paths are exactly those that the names of the input lead along, with the input's bytes and folders at their ends |
| `SafReader.InstallNowhere` | res/saf/saf-extract.c:42-56 | where no folder can hold it, nothing of a tree is created: the failed `mkdir` goes unnoticed, and only a file, which cannot be opened, ends the tool |
| `SafReader.InstallExactly` | res/saf/saf-extract.c:36-57 | what happens to a folder with all it holds, on every disk: it is found and nothing happens, or it is created whole, or nothing of it is |
| `SafReader.Extractor.ParseNode` | res/saf/saf-extract.c:30-58 | on any buffer: fails if a node that is reached lacks the magic number or leaves the buffer; otherwise its result and the disk, failures included, are those of installing the walked tree; in every case what was on the disk stays |
| `SafReader.Extractor.ParseChildren` | res/saf/saf-extract.c:50-51 | the same for the child loop, in order, stopping at the first failure |
| `SafReader.MakeThenExtract` | res/saf/saf-make.c:188-200 | making and extracting an archive whose root has the name N: if the output path (with N) is found, the tool fails and the disk stays; if it can be created, the tool succeeds, and below it the disk gains every path of names in the input with its bytes, and nothing else anywhere; otherwise the disk stays, and the tool succeeds if and only if no path of the input leads to a file |
| `NoteText.KeyKeepsValid` | programs/notepad/main.cpp:110-125 | every key keeps the lines short and free of newlines, their number in bounds and the cursor in its line |
| `NoteText.LineStartMeans` | programs/notepad/main.cpp:120-120 | the start of a line has no newline between it and the cursor, and one before it or nothing |
| `NoteText.LineEndMeans` | programs/notepad/main.cpp:121-121 | the end of a line likewise |
| `NoteText.InsertRefines` | programs/notepad/main.cpp:27-33 | typing is insertion at the flat offset, or nothing when the line is full |
| `NoteText.EnterRefines` | programs/notepad/main.cpp:35-44 | Enter is insertion of a newline, or nothing when the rows are used up |
| `NoteText.BackspaceRefines` | programs/notepad/main.cpp:46-64 | Backspace removes the character before the offset, or nothing at the start or when the joined line would be too long |
| `NoteText.DeleteRefines` | programs/notepad/main.cpp:66-81 | Delete removes the character at the offset, or nothing at the end or when the joined line would be too long |
| `NoteText.UpRefines` | programs/notepad/main.cpp:95-101 | Up goes to the same column, or the end, of the line above |
| `NoteText.DownRefines` | programs/notepad/main.cpp:102-108 | Down goes to the same column, or the end, of the line below |
| `NoteText.KeyRefines` | programs/notepad/main.cpp:110-125 | each key acts on the newline-joined text and flat offset exactly as the flat editor |
| `NoteText.SessionRefines` | programs/notepad/main.cpp:110-125 | so does every key sequence |
| `NoteText.InsertThenBackspace` | programs/notepad/main.cpp:27-51 | typing a character and Backspace restores everything if and only if the line was not full, or there was nothing to erase |
| `NoteText.EnterThenBackspace` | programs/notepad/main.cpp:35-64 | Enter and Backspace restores everything if and only if a row was free, or there was nothing to erase |
| `Notepad.Editor.OpenGap` | programs/notepad/main.cpp:30-31 | the shifting loop of an insertion, in place |
| `Notepad.Editor.CloseGap` | programs/notepad/main.cpp:48-50 | the shifting loop of a removal, in place |
| `Notepad.Editor.ShiftDown` | programs/notepad/main.cpp:37-38 | the row loop of Enter |
| `Notepad.Editor.ShiftUp` | programs/notepad/main.cpp:57-59 | the row loop of a join |
| `Notepad.Editor.Insert` | programs/notepad/main.cpp:27-33 | the rows and the cursor become those of the line model |
| `Notepad.Editor.Enter` | programs/notepad/main.cpp:35-44 | the rows and the cursor become those of the line model |
| `Notepad.Editor.Backspace` | programs/notepad/main.cpp:46-64 | the rows and the cursor become those of the line model |
| `Notepad.Editor.Delete` | programs/notepad/main.cpp:66-81 | the rows and the cursor become those of the line model |
| `Notepad.Editor.PressKey` | programs/notepad/main.cpp:110-125 | every row stays terminated, rows past the last stay empty, the cursor stays in its line, the state follows the line model, and each key code does its own thing to the flat text: it inserts its character, removes one before or at the cursor, moves the cursor to a place told by the newlines around it, or does nothing |
| `Notepad.KeyPressed` | programs/notepad/main.cpp:110-125 | the dispatch on key codes, code by code |
| `Notepad.Editor.Session` | programs/notepad/main.cpp:110-125 | a whole session in the array is the same session on flat text, and each key code in turn did to the text what it should |
| `Lanes.LanesApart` | ablib/atomic/atomic_riscv64.h:172-174 | the lanes of two naturally aligned objects in one word overlap exactly when the objects do |
| `Lanes.LaneHolds` | ablib/atomic/atomic_riscv64.h:172-174 | the bytes and half-words of a little-endian word lie in the lanes of their addresses |
| `Lanes.MaskIs` | ablib/atomic/atomic_riscv64.h:175-175 | the bit-by-bit mask is `((1 << BITS) - 1) << shift` |
| `Lanes.GetIsField` | ablib/atomic/atomic_riscv64.h:208-208 | `(oldw & mask) >> shift` is the number in the lane |
| `Lanes.DiffersMeans` | ablib/atomic/atomic_riscv64.h:183-183 | comparing the masked word with the shifted value compares the lane |
| `Lanes.MergeIsPut` | ablib/atomic/atomic_riscv64.h:209-209 | the merged word has the new value, cut to size, in the lane and its own bits elsewhere |
| `Lanes.InsertIsPut` | ablib/atomic/atomic_riscv64.h:187-187 | inserting without a mask is right because the value fits its type |
| `Lanes.PutBits` | ablib/atomic/atomic_riscv64.h:187-209 | bit by bit: inside the lane the bits of the value, outside it those of the word |
| `Lanes.FieldBits` | ablib/atomic/atomic_riscv64.h:208-208 | the bits of a lane's number are the word's bits from the lane's shift on |
| `Lanes.FieldPut` | ablib/atomic/atomic_riscv64.h:187-209 | what was put into a lane is what is read from it, cut to size |
| `Lanes.FieldBeside` | ablib/atomic/atomic_riscv64.h:187-209 | a lane keeps its number when a lane beside it is written |
| `Lanes.ComputeInLane` | ablib/atomic/atomic_riscv64.h:219-236 | cut to the lane, the 32-bit add, sub, and, or, xor and nand are those of the 8- and 16-bit types |
| `Lanes.ComputeBits` | ablib/atomic/atomic_riscv64.h:225-236 | bit by bit: and, or, xor and nand take each bit from the two bits at its place |
| `Lanes.ComputeSums` | ablib/atomic/atomic_riscv64.h:219-223 | adding what was subtracted, and subtracting what was added, gives the number back |
| `Lanes.PutFits` | ablib/atomic/atomic_riscv64.h:187-209 | the merged word is a word again |
| `Atomics.ComputedRight` | ablib/atomic/atomic_riscv64.h:183-209 | the word that the code computes and the value it returns are those of the operation done at one stroke on the word it loaded |
| `Atomics.LoadReservedKeeps` | ablib/atomic/atomic_riscv64.h:182-186 | a failed compare-exchange takes effect at its load; otherwise the load changes nothing |
| `Atomics.StoreConditionalKeeps` | ablib/atomic/atomic_riscv64.h:187-190 | a store that succeeds under a live reservation is the whole operation at once; one that fails changes nothing |
| `Atomics.LockedExchangeKeeps` | ablib/atomic/atomic_x86_64.h:156-174 | the same for the compare-exchange step, which updates the expected value when it fails |
| `Atomics.StepKeeps` | ablib/atomic/atomic_riscv64.h:198-213 | every step of every thread keeps the invariant |
| `Atomics.RunKeeps` | ablib/atomic/atomic_riscv64.h:249-254 | so does every run of any number of threads in any order, exchange loops included |
| `Atomics.ExactlyOnce` | ablib/atomic/atomic_riscv64.h:182-209 | a thread's effects are its returns, one for one with their results, and at most one that has not returned yet; its calls are its effects and at most one that is still to come |
| `Atomics.Linearizable` | ablib/atomic/atomic_x86_64.h:226-237 | in every reachable state the word is the fold of the operations in the order of their effects, each did to its lane what it should and got the lane value just before, and every call of every thread is among them once, in its order and with the result it returned |
| `Atomics.LoggedEffect` | ablib/atomic/atomic_riscv64.h:168-236 | what each operation did to the word, in every reachable state: bitwise ones bit by bit, sums modulo the lane, a compare-exchange only on equality, an exchange and a store with their value; the bits beside the lane stay, and the result is the lane's old number |
| `Atomics.TakesEffectInTime` | ablib/atomic/atomic_riscv64.h:168-213 | an operation that has returned took effect after it was called, with the result it returned, and only once |
| `Atomics.PlacedBetween` | ablib/atomic/atomic_riscv64.h:168-213 | the place of an operation in the log lies between the lengths of the log at its call and at its answer |
| `Atomics.RealTimeOrder` | ablib/atomic/atomic_riscv64.h:168-213 | an operation that was answered before another was called stands before it in the log of every later state, direct stores included |
| `Atomics.OtherBitsKept` | ablib/atomic/atomic_riscv64.h:168-213 | over any run, bits that no operation's lane covers keep their value |
| `Atomics.NoLostUpdate` | ablib/atomic/atomic_riscv64.h:219-220 | a lane that is only added to holds its first value plus everything added, modulo its width, whatever is done to its neighbours |
| `FileStream.TurnKeeps` | lib/stdc/stdio.c:122-147 | every turn of the read loop keeps the buffer equal to the file behind the offset and hands over the next bytes; it hands over some, or refills, or stands at the end of the file |
| `FileStream.Stream.SysRead` | lib/stdc/stdio.c:137-145 | the read system call: may fall short, returns nothing only at the end |
| `FileStream.Stream.TakeTurn` | lib/stdc/stdio.c:122-147 | the three branches of the loop body, in place |
| `FileStream.Stream.Fill` | lib/stdc/stdio.c:122-147 | the loop ends, with exactly as many bytes as asked for or left, under arbitrary short reads |
| `FileStream.Stream.ReadBytes` | lib/stdc/stdio.c:106-147 | the request, cut to the recorded size if there is one, is answered with the next bytes of the file |
| `FileStream.Stream.FRead` | lib/stdc/stdio.c:95-151 | null or zero arguments and a product beyond `SIZE_MAX` read nothing; otherwise `min(size · nmemb, remaining)` bytes; the result counts the whole items among them and is at most `nmemb` |
| `FileStream.WrapKeepsTarget` | lib/stdc/stdio.c:164-172 | adding in 64 bits does not change whether a seek target lies in the file |
| `FileStream.Stream.FSeek` | lib/stdc/stdio.c:154-190 | succeeds exactly if the position at the given distance from the start, from the offset or from the size is in the file, and goes there; an unknown origin fails; an accepted seek puts the stream in step, a rejected one leaves it ahead by the bytes it dropped, so it stays in step exactly when nothing was buffered |
| `FileStream.InStepExactly` | lib/stdc/stdio.c:159-183 | with the size known or not, a stream answers every request as the plain file does if and only if it is not ahead of its offset |
| `FileStream.SeekExactly` | lib/stdc/stdio.c:154-190 | after a seek a stream that was in step answers every request as the plain file does if and only if the seek was accepted or nothing was buffered |
| `FileStream.SeekThenRead` | lib/stdc/stdio.c:95-190 | the code itself: a seek and a read of all there is give the rest of the file under exactly that condition |
| `FileStream.RejectedSeekSkips` | lib/stdc/stdio.c:159-183 | a three-byte file of which one byte was read and two are buffered: a seek to -1 is rejected and the next read gives nothing instead of the second byte |
| `FileStream.Stream.FTell` | lib/stdc/stdio.c:193-203 | the kernel position less the unread bytes and what the stream runs ahead: the place of the next byte for a stream in step |
| `FileStream.Session` | lib/stdc/stdio.c:95-190 | over every run whose seeks are accepted, the answers are those of the plain file, told by positions: a read hands over the bytes from one position to the next, a seek lands at its distance from its origin |
| `FileStream.AnswersTraced` | lib/stdc/stdio.c:95-190 | the reference answers are those of such a run |
| `FileStream.ReadsConsecutive` | lib/stdc/stdio.c:95-151 | without seeks the answers, joined, are one piece of the file |
| `StreamLock.TestAndSetKeeps` | lib/stdc/stdio.c:12-22 | the exchange lets in at most one thread |
| `StreamLock.LoopKeeps` | lib/stdc/stdio.c:122-147 | a turn of the read loop inside the lock |
| `StreamLock.SeekSteps` | lib/stdc/stdio.c:159-188 | the steps of a seek under the lock leave the stream as `fseek` does alone, and account for the bytes that a rejected one drops |
| `StreamLock.UnlockKeeps` | lib/stdc/stdio.c:24-26 | the clearing store hands on the stream with the finished operation in the log |
| `StreamLock.RunKeeps` | lib/stdc/stdio.c:104-149 | every run of any number of threads keeps the invariant |
| `StreamLock.MutualExclusion` | ablib/atomic/atomic_x86_64.h:266-278 | in every reachable state at most one thread is in the locked region, and the lock is set |
| `StreamLock.LoggedOnce` | lib/stdc/stdio.c:104-190 | each call of each thread is in the log once and in its order, but for the one it is in |
| `StreamLock.OneThread` | lib/stdc/stdio.c:104-190 | for every reachable state there is a run of one thread that ends with the same stream, lock and log, thread names apart |
| `StreamLock.Serialisable` | lib/stdc/stdio.c:104-190 | for every reachable state there is a run of one thread, from the same stream, with the same operations in the order of their unlocks, the same results and the same bytes dropped by rejected seeks; each call of each thread is among them once |
| `StreamLock.ResultsRight` | lib/stdc/stdio.c:104-190 | each result is the right one at the position where the operations before it have left the stream |
| `StreamLock.PlainAnswers` | lib/stdc/stdio.c:104-190 | when no seek was rejected, they are the answers of the plain file |
| `StreamLock.SlicesConsecutive` | lib/stdc/stdio.c:104-149 | without seeks, the slices handed out to all threads are consecutive and make up the front of the file |
| `CivilDate.CalendarIncreases` | programs/desktop/main.cpp:255-257 | later days have later dates in the calendar that is counted day by day |
| `CivilDate.NextPlaceIndex` | programs/desktop/main.cpp:268-276 | in eras that start on 1 March, the next place is the next day number, across months, years and eras |
| `CivilDate.CalendarAt` | programs/desktop/main.cpp:268-276 | every place in an era carries the date that counting day by day gives |
| `CivilDate.CivilOfDays` | programs/desktop/main.cpp:255-257 | counting to the day number of a valid date gives the date back |
| `CivilDate.DaysOfCivil` | programs/desktop/main.cpp:255-257 | the inverse maps the date of every day back to that day |
| `CivilDate.EraIs` | programs/desktop/main.cpp:269-269 | the truncating division with its correction is floor division |
| `CivilDate.YearStartIs` | programs/desktop/main.cpp:272-272 | `365y + y/4 - y/100` counts the days of the years of an era |
| `CivilDate.YearOfEra` | programs/desktop/main.cpp:271-271 | the year formula is right on every day of the era but the last |
| `CivilDate.MonthOfYear` | programs/desktop/main.cpp:273-273 | the month formula is right on every day of a year that starts in March |
| `CivilDate.CivilFromDays` | programs/desktop/main.cpp:268-276 | the date is the calendar's if and only if the day is not the last of its 400-year era and its year fits an `int`; on the last day it is 1 March instead of 29 February, and a year that does not fit is cut to 32 bits |
| `CivilDate.CivilWrongDay` | programs/desktop/main.cpp:268-276 | 29 February 2000 is such a day: the code makes 1 March 2000 of it |
| `CivilDate.LocalDay` | programs/desktop/main.cpp:262-264 | the corrected quotient and remainder are those of floor division, for negative local seconds too |
| `CivilDate.ReadDateTime` | programs/desktop/main.cpp:258-278 | for every clock reading: hour and minute are exact, and the date is the calendar's under exactly that condition |
| `Decimal.Atoi` | lib/stdc/str.c:243-272 | blanks, one sign, digits: the mathematical value of the digits clamped to int32 |
| `Decimal.ReadDigits` | lib/stdc/str.c:264-271 | the accumulator never leaves 64 bits, and stopping early gives the clamped value |
| `Decimal.ToStringUnsigned` | programs/desktop/main.cpp:46-69 | the decimal digits and a terminator |
| `Decimal.DigitAt` | programs/desktop/main.cpp:46-69 | each character is a decimal place of the number, highest first |
| `Decimal.ReverseInPlace` | programs/desktop/main.cpp:59-67 | the swapping loop reverses the digits |
| `Decimal.ToStringSigned` | programs/desktop/main.cpp:70-84 | the digits with a sign moved in front |
| `Decimal.ValueOfDigits` | programs/desktop/main.cpp:54-57 | the value of the digits of a number is the number |
| `Decimal.PrintThenRead` | programs/desktop/main.cpp:70-84 | `atoi` of what `to_string` prints is the number clamped to int32, hence the number itself for every int32 |
| `WordBytes.ExactZeroClear` | lib/stdc/str.c:188-191 | the first-word mask marks exactly the zero bytes |
| `WordBytes.HasZeroClear` | lib/stdc/str.c:49-50 | up to and including its lowest mark, the quick mask is exact |
| `WordBytes.HasZeroFalseAlarm` | lib/stdc/str.c:49-50 | above the lowest mark it may be wrong |
| `WordBytes.LowestMark` | lib/stdc/str.c:67-67 | trailing zeros divided by eight are the index of the lowest marked byte |
| `WordStrings.LengthIs` | lib/stdc/str.c:178-241 | the byte-by-byte length is the offset of the first zero byte, and nothing else |
| `WordStrings.FirstZeroFrom` | lib/stdc/str.c:191-210 | shifting out the bytes before an unaligned start leaves the first zero byte from it on |
| `WordStrings.LengthFrom` | lib/stdc/str.c:215-240 | the word loop ends at the first zero byte |
| `WordStrings.StrLen` | lib/stdc/str.c:178-241 | the byte-by-byte length, for every content and alignment; 0 for the null pointer |
| `WordStrings.FirstDifference` | lib/stdc/str.c:49-67 | at the lowest mark of the combined mask the bytes differ or end, and before it they agree |
| `WordStrings.CompareUnaligned` | lib/stdc/str.c:30-40 | the byte loop until both pointers are aligned decides the comparison or hands over the agreeing part |
| `WordStrings.CompareAligned` | lib/stdc/str.c:42-84 | the word loop finds the length of the agreeing part |
| `WordStrings.StrCmp` | lib/stdc/str.c:27-85 | for every content, alignment and terminator: the difference of the first bytes that differ; its sign is the lexicographic order of the two texts as unsigned bytes |
| `WordStrings.CompareEqual` | lib/stdc/str.c:27-85 | zero exactly for equal texts |
| `WordStrings.CompareOrders` | lib/stdc/str.c:27-85 | negative, zero or positive exactly as the first text is before, the same as or after the second |
| `WordStrings.MemCmp` | lib/stdc/memory.c:232-274 | the difference of the first bytes that differ, zero if none does; its sign is the lexicographic order of the two blocks |
| `WordStrings.ComparesEqual` | lib/stdc/memory.c:232-274 | zero exactly for equal blocks |
| `WordStrings.ComparesOrders` | lib/stdc/memory.c:232-274 | negative, zero or positive exactly as the first block is before, the same as or after the second |
| `BlockCopy.MovesUnique` | kernel/src/main.cpp:288-303 | there is only one right result of a move |
| `BlockCopy.UpperFirst` | kernel/src/main.cpp:296-300 | moving the upper part first is right when the destination is not below the source |
| `BlockCopy.LowerFirst` | kernel/src/main.cpp:292-295 | moving the lower part first is right when it does not write what is still to be read |
| `BlockCopy.KernelMemMove` | kernel/src/main.cpp:288-303 | the byte loops are right for every overlap |
| `BlockCopy.MemSet` | kernel/src/main.cpp:257-286 | the unrolled loop, entered in the middle, fills exactly the n bytes |
| `BlockCopy.CopyBlock` | lib/stdc/memory.c:175-182 | eight ascending words move 64 bytes when source and block do not overlap downwards, and otherwise leave a known byte wrong |
| `BlockCopy.MemCopy` | lib/stdc/memory.c:100-135 | head, blocks, words and bytes move every length when the source is above the destination or apart from it |
| `BlockCopy.BlocksDown` | lib/stdc/memory.c:172-184 | the backward block loop |
| `BlockCopy.MoveBackward` | lib/stdc/memory.c:160-192 | right for distances of at least 64 or when no block is copied, and otherwise wrong at a known byte |
| `BlockCopy.MemMove` | lib/stdc/memory.c:138-229 | what is left behind in every case, with and without the x86 path; the returned pointer is the destination, except on the x86 forward path, where it is the end of it |
| `BlockCopy.NotRight` | lib/stdc/memory.c:144-184 | outside the condition there is a memory of which nothing that the code may leave behind is a right move |
| `BlockCopy.RightExactly` | lib/stdc/memory.c:138-229 | `memmove_fscpuf` moves all memories correctly if: nothing is to be moved; or the source is above and, on x86, at least 16 bytes are moved; or it is below by at least 64, or fewer than 64 bytes are left after the tail; and in every other case there is a memory that it gets wrong |
| `BlockCopy.MoveWrongly` | lib/stdc/memory.c:138-229 | the code itself, on such a memory, leaves behind something that is not the move |
| `Raster.PlotAllMeaning` | lib/graphic/fb.c:22-34 | exactly the visible points of a list get the colour, and no other memory changes |
| `Raster.PointPainted` | lib/graphic/fb.c:22-34 | a visible point has the colour if it is in the list and keeps its own otherwise: no two points share a pixel |
| `Raster.PutPixel` | lib/graphic/fb.c:22-34 | inside the screen the pixel at row times pitch plus column gets the colour; nothing else changes |
| `Raster.FlatStep` | lib/graphic/fb.c:85-93 | for flat lines one turn moves along x and follows the nearest y |
| `Raster.SteepStep` | lib/graphic/fb.c:85-93 | for steep lines one turn moves along y and follows the nearest x |
| `Raster.TurnFits` | lib/graphic/fb.c:78-93 | the error term, its double and both its updates stay within 64 bits |
| `Raster.LineInBox` | lib/graphic/fb.c:80-94 | every point lies in the bounding box, and the end point is reached last and only then |
| `Raster.LineHalfPixel` | lib/graphic/fb.c:85-93 | every point that is drawn is within half a pixel of the ideal line on the minor axis, in both variants |
| `Raster.DrawLine` | lib/graphic/fb.cpp:67-87 | both variants end, after one point more than the longer of the two distances; on the screen exactly the points of the rounded line have the colour, and no other memory changes; no word of the loop leaves 64 bits |
| `Raster.CircleStep` | lib/graphic/fb.c:121-128 | one turn keeps err = x² + y² - r² + 2y and the largest x for the next y |
| `Raster.LargestUnique` | lib/graphic/fb.c:110-129 | that x is unique |
| `Raster.CirclePoint` | lib/graphic/fb.c:112-119 | the eight reflections of the octant are exactly the points of the circle around the centre |
| `Raster.CircleFits` | lib/graphic/fb.c:121-128 | what a turn computes stays within 64 bits |
| `Raster.DrawCircle` | lib/graphic/fb.c:97-130 | the loop ends, with one row for each y from 0 on; on the screen exactly those pixels have the colour whose larger distance from the centre is the largest x of the row of their smaller one, and no other memory changes; a radius with its top bit set draws nothing; no word of the loop leaves 64 bits |

## Left out

- Window manager, taskbar, compositor, title bars and the loader: user interface over calls whose bodies are elsewhere.
- Assembly: `rep movsb`, `divq`, `xchg`, `cmpxchg`, `lr` and `sc` are taken at their architectural meaning; `rep stosb` and the x87 code of lib/stdc/math.c are not modelled.
- Memory-order arguments and fences: the state machines are sequentially consistent.
- The 4- and 8-byte `sub` template and the sub-word `*_fetch` forms of ablib/atomic/atomic_riscv64.h: defined twice, or over a name that is not in scope.
- Single-instruction atomics (`amoadd`, `xadd`, `xchg` as an exchange): each is one step and adds nothing to the retry loops.
- fopen, fclose and failing system calls: a stream is open on a file that does not change.
- SafReader.Walk: carries a depth bound, because an arbitrary buffer may hold cycles; for archives that the writer made the bound is proved to be enough. A read past the end of the buffer, which C leaves undefined, is a failure.
- SafWriter.Archive.MakeFile: checks the size before it writes the header, where the source writes some fields first; the two differ only in runs that end in the "archive size exceeds" panic.
- The 1024-byte path buffers of the SAF tools, and messages: paths are sequences of names.
- SafReader.Extractor.ParseNode: takes a name for one path component, or for none if it is empty; names that hold a slash, are "." or "..", or have no terminator in their 256 bytes are not resolved. Below the root the writer makes none of them.
- Failing system calls of the SAF tools, other than `mkdir` and `fopen` where there is no folder to create in.
- CivilDate.ReadDateTime: without sums `s + tz * 60` beyond int64, which C leaves undefined.
- Decimal.ToStringSigned: negates the minimum of int64 to 2^63, which in C is left to the compiler.
- Raster.DrawLine: all coordinates of 64 bits, with distances of at most a third of 2^63; beyond that the doubled error term can leave 64 bits, which C leaves undefined.
- Raster.DrawCircle: without the radii between 2^62 and 2^63, for which the term `2 * x + 1` leaves 64 bits. What the screen shows is told for centres that, taken as signed numbers, are not below -2^62; further off a reflection can wrap around into a screen of 2^62 columns.
- `DrawCircle` and `DrawRoundedRect` of lib/graphic/fb.cpp: they update their decision variable with coordinates already changed, so the error invariant of lib/graphic/fb.c does not hold there.
- `strncpy`, `strtok`, `strcat`, `strcpy`, `strchr`, `bzero` and the x86 path of `memcpy_fscpuf`: they would only add easy members.
- Boot code, port I/O, ACPI, ELF, lwIP, the file cache, scheduler and allocators.
