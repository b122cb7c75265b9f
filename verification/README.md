# Models of the ρ-VEX benchmarks and generator scripts

The repository holds the toolchain of the ρ-VEX processor. This project models the algorithms in its
benchmark programs (`test-progs/src`) and in the script that generates VHDL and C for the control
registers (`config/scripts`), and proves what they are for.

| files | what they model | main result |
|---|---|---|
| `Bakery`, `BakeryFair`, `BakeryTickets` | the bakery lock, every volatile access a step | mutual exclusion, no lost update, first come first served, no starvation under weak fairness |
| `Quicksort` | the two-phase quicksort on elements of any size, moved byte by byte | sorted permutation, depth of the recursion |
| `Words`, `Rounding`, `SoftFloat` | binary32 multiplication and division from 32-bit words | correctly rounded results and flags |
| `LzwCodes`, `LzwHash`, `LzwPack`, `LzwStream`, `LzwGreedy`, `Compress` | the LZW compressor and decompressor, from the hash table to the bits | round trip, longest matches, CLEAR exactly when due, exactly when the codes are read back, and inputs that are lost |
| `V42Trie`, `V42Codec`, `V42Bits`, `V42Dict`, `V42`, `V42Runs`, `V42Truncates`, `V42Garbles`, `V42Leaving`, `V42Escape`, `V42Signals` | the V.42 bis codec with its recycled dictionary and two modes | round trip where `decode` can follow, exactly where it cannot, and inputs that `encode` by its own choices garbles |
| `Bitwise`, `BackendTargets`, `Backend`, `BackendProgram`, `BackendAssign`, `BackendMeaning` | the expression compiler with semantics for the source and both targets | VHDL has the meaning of the source, and VHDL and C agree, at each operator exactly when C keeps up |
| `Allocator` | `malloc` and `free` on the block chain | headers tile the heap, and exactly when they do not |
| `Hierarchy`, `HierarchyClosest`, `HierarchyComplete` | the builder of the command tree | document order, multiplicities, the closest place that accepts; nothing rejected that has a tree, for unambiguous rules such as those of the registers |
| `Adpcm` | the ADPCM coder and decoder | lockstep, and no code is better than the one chosen by more than one |
| `Crc`, `CrcDivision` | table-driven and bitwise CRC | refinement, and the remainder of the message as a polynomial |
| `Des`, `DesStandard` | the DES block function | inversion, and the wiring and rounds of the standard |
| `Powers`, `Division` | powers of two, facts about division | |

In most components a specification on values (a state machine, a string table, an exact number) comes
first, and the methods on arrays and fields, which follow the source step by step, are proved to refine
it; the theorems are about the specification and so hold for the methods.

## What the code does other than it says

- `nostdlib-dynmem.c` documents a block length that excludes the header. Line 31 counts the header of the
  first block into its length, and line 152 forgets one header word when the block after is merged. The
  class `Allocator.Heap` takes `repaired` as a parameter: without it both lines are as written. `free` also
  reads the word after the last block (lines 150-151), which with the length of line 31 is behind the array;
  it is the parameter `beyond`.
- `compress.c` takes a byte 0xFF of the packed stream for its end (line 425) and goes on after it. A code is
  lost when it ends in or after the first such byte of its group, unless it is the first code of the group
  and starts in another byte. In the padding of a group that a change of width has ended early, such a byte
  does no harm if it is the last byte of the group or, after the last code of the stream, is followed by
  another one; otherwise the next group is read from the wrong byte, or the end is missed. Every input that
  begins with the byte 0xFF decompresses to nothing (`Compress.RoundTrip`).
- `v42.c` restarts the match of `encode` on leaving the compressed mode (lines 469-475) where `decode` goes on
  with its string, and guards the longest match in one place only (line 529). Its transparent mode fills the
  dictionary without `checksize_dict` (lines 519-530), so that the compressed mode can begin with entries
  whose codes need more bits than it uses. An input comes out changed for the first reason
  (`V42Leaving.LeavingGarbles`) and for the last one (`V42Garbles.Garbled`), and makes `decode` fail for the
  second (`V42Runs.RoundTripFails`).
- `interpreter.py` takes the closest ancestor for a command (line 161). That can reject commands for which
  another placement meets every multiplicity (`HierarchyComplete.ClosestFails`), but only if a command is
  accepted by a parent and by something that may stand below it, or a rule names a command twice
  (`HierarchyComplete.NothingLost`).
- `back_end.py` says at lines 615-619 that the operands of a gate may be reversed. The code exchanges them
  whenever the second is a vector (lines 652-656), so a vector of one bit gates a longer one as the first
  operand, while in second place, the documented order, it is an error. The model has that error.
- `type_sys.py` allows garbage above the width of a vector, and `back_end.py` compares vectors of equal width
  without a mask (lines 898-913). A relation is right if and only if what C has above the vectors is the same
  in both operands or compares as the low bits do (`BackendProgram.RelationExact`). So it is right on two
  complemented bytes, where both have the same garbage, and wrong on a complemented byte and an equal variable.
- `crc.c` counts the message in 16 bits up to a length of 32 (line 54): from 65535 bytes on the loop does not end.

## Model

| member | source | states |
|---|---|---|
| Bakery.MutualExclusion | test-progs/src/lamport_spinlock.c:35-63 | In every interleaving of n threads, each load and store of `entering` and `ticket` a step of its own (line 43 loads twice, line 55 up to five times), at most one thread is between `claim_lock(l)` and `free_lock(l)` |
| Bakery.NoLostUpdate | test-progs/src/lamport_spinlock.c:82-96 | A counter incremented by a separate load and store inside the lock equals the number of increments completed, in every state of every run |
| Bakery.FirstComeFirstServed | test-progs/src/lamport_spinlock.c:39-57 | A thread that has its ticket when another sets its flag enters before it, in every run |
| Bakery.NoDeadlock | test-progs/src/lamport_spinlock.c:35-58 | In every reachable state in which a thread claims or holds a lock, some schedule brings a thread into that critical section; `BakeryFair.NoStarvation` says that under fairness every such thread gets there |
| Bakery.StepInv | test-progs/src/lamport_spinlock.c:35-63 | Every step of every thread keeps the invariant behind the results above: program counters, ticket order between every two threads, and loaded counters that are still current |
| Bakery.RunInv | test-progs/src/lamport_spinlock.c:35-63 | The invariant holds in every state of every run from the zeroed arrays |
| Bakery.OlderStep | test-progs/src/lamport_spinlock.c:43-57 | Being ahead of another thread survives every step of every thread, third threads between the two loads of line 43 included, except a release by one of the two |
| Bakery.StaysOlder | test-progs/src/lamport_spinlock.c:43-57 | A younger thread stays behind for as long as neither of the two releases the lock |
| Bakery.FirstEnters | test-progs/src/lamport_spinlock.c:48-57 | A thread with the least ticket, nobody choosing, passes the whole wait loop when it runs alone |
| Bakery.Settle | test-progs/src/lamport_spinlock.c:38-46 | Every thread can be brought out of the doorway, while one that claims the lock still claims or holds it |
| BakeryTickets.CriticalFirst | test-progs/src/lamport_spinlock.c:48-57 | In every state of every run, a thread inside the lock has the least ticket of all that hold one, and of equal ones the least index |
| BakeryTickets.TicketTaken | test-progs/src/lamport_spinlock.c:35-46 | A thread that goes through the doorway of a lock undisturbed takes a ticket one greater than the greatest in all threads, and changes nothing else |
| BakeryTickets.MaxFound | test-progs/src/lamport_spinlock.c:41-44 | The loop over the tickets ends with the greatest one |
| BakeryTickets.EachLock | test-progs/src/lamport_spinlock.c:35-58 | From every reachable state in which all threads are idle, each thread can get into each lock |
| BakeryFair.NoStarvation | test-progs/src/lamport_spinlock.c:35-58 | In every run without end in which each thread that is under way moves again and again, a thread that has called `claim_lock` comes to its critical section, whatever the schedule, the other threads and their number |
| BakeryFair.HelpStep | test-progs/src/lamport_spinlock.c:38-63 | While a thread waits, each step of any thread takes something out of its way for good, or leaves the thread in the doorway or first in the queue what it was and, if it was that thread's step, nearer to its release |
| BakeryFair.TotalStep | test-progs/src/lamport_spinlock.c:38-63 | What can still get in the way of a waiting thread never grows, and shrinks with every step in the doorway, every release and every new claim |
| BakeryFair.Leaves | test-progs/src/lamport_spinlock.c:38-46 | In every fair run a thread in the doorway comes to hold a ticket |
| BakeryFair.RoundRobin | test-progs/src/lamport_spinlock.c:35-58 | Threads that take turns are such a fair run |
| Bakery.Machine.StepThread | test-progs/src/lamport_spinlock.c:35-63 | The program on shared arrays, one access at a time, does exactly one step of the transition relation that the theorems are about |
| Quicksort.Sort | test-progs/src/ucbqsort.c:71-122 | For every number of elements of every size of at least one byte and every total preorder, the elements end up sorted and permuted, and the calls of `qst` nest beyond the first to a depth d with 2^d <= n |
| Quicksort.Qst | test-progs/src/ucbqsort.c:124-216 | The first phase permutes the stretch and leaves a least element among its first four places; the recursion depth d satisfies 2^d <= length |
| Quicksort.QstRound | test-progs/src/ucbqsort.c:134-214 | One round keeps what the first phase has to establish, makes the open stretch shorter, and its recursion depth d satisfies 2^d <= length of the stretch or is 0 |
| Quicksort.Partition | test-progs/src/ucbqsort.c:134-199 | The stretch is permuted and the pivot ends with the elements not above it on its left and those not below it on its right |
| Quicksort.PartitionAround | test-progs/src/ucbqsort.c:156-199 | The same from any pivot position, with the loop that swaps outward and moves the pivot |
| Quicksort.SkipSmall | test-progs/src/ucbqsort.c:158-159 | Stops at the pivot or at an element above it, with none above it passed |
| Quicksort.SkipLarge | test-progs/src/ucbqsort.c:160-166 | Stops at the pivot or at an element below it, with none below it passed |
| Quicksort.ChoosePivot | test-progs/src/ucbqsort.c:134-155 | A long stretch has a median of three brought to its middle; a short one is left alone |
| Quicksort.Swap | test-progs/src/ucbqsort.c:190-197 | The loop over the bytes exchanges two elements and changes no other |
| Quicksort.MedianOfThree | test-progs/src/ucbqsort.c:137-143 | The comparisons pick a median of the first, middle and last element |
| Quicksort.FindLeast | test-progs/src/ucbqsort.c:95-97 | The place of a least element of the first `hi` ones |
| Quicksort.Scan | test-progs/src/ucbqsort.c:109-111 | The scan that tests no bound stops inside the array, at the place where the element belongs |
| Quicksort.Insert | test-progs/src/ucbqsort.c:113-119 | Byte by byte, the shifting loops move one element down and the others up by one |
| Quicksort.InsertByte | test-progs/src/ucbqsort.c:113-119 | One byte of an element goes to the element at `hi` and the same byte of those between up by one; no other byte changes |
| Quicksort.InsertionSort | test-progs/src/ucbqsort.c:107-121 | From a least element in front, the second phase sorts and permutes |
| Quicksort.LeastMoved | test-progs/src/ucbqsort.c:98-106 | Swapping the least element to the front leaves a permutation with that element below all others |
| Words.Mul32To64 | test-progs/src/floatlib.c:158-177 | Four 16 x 16 products and two carry tests make the exact 64-bit product |
| Words.Sub64 | test-progs/src/floatlib.c:179-187 | Difference of two double words, as a signed number, whenever it fits |
| Words.Add64 | test-progs/src/floatlib.c:192-201 | Sum with a signed double word, whenever it fits |
| Rounding.NearestIsIeee | test-progs/src/floatlib.c:397-442 | Being within half a unit of both neighbours, even on a tie, is rounding to nearest even as IEEE 754-2008 section 4.3.1 defines it over all representable numbers, overflow to infinity included |
| Rounding.ValueStep | test-progs/src/floatlib.c:442 | Consecutive encodings are consecutive values across exponents, subnormals and the step to infinity |
| Rounding.TinyIsRounded | test-progs/src/floatlib.c:410-413 | Being below the number half way between 2^-126 and its 24-digit predecessor is the same as being rounded, to nearest even over all 24-digit numbers with exponents of any size, to less than 2^-126 |
| SoftFloat.Mul | test-progs/src/floatlib.c:1147-1243 | For all finite operands, subnormal ones included, the result is the exact product rounded to nearest even, with the right sign and the overflow, underflow and inexact flags exactly when they are due; NaN, infinity and invalid cases |
| SoftFloat.Div | test-progs/src/floatlib.c:1245-1371 | For all finite operands with a nonzero divisor, the result is the exact quotient rounded to nearest even, with sign and flags; division by zero, NaN, infinity and invalid cases |
| SoftFloat.MulNonzero | test-progs/src/floatlib.c:1209-1242 | The main path of multiplication against the exact product of the two significands and exponents |
| SoftFloat.DivNonzero | test-progs/src/floatlib.c:1313-1370 | The main path of division against the exact quotient |
| SoftFloat.RoundAndPackFloat32 | test-progs/src/floatlib.c:368-443 | From a significand with a sticky last bit, any sign and exponent, gives the exact number rounded to nearest even, gradual underflow and overflow included; inexact exactly when the result differs, underflow exactly when it does and the number is tiny after rounding |
| SoftFloat.PackRounded | test-progs/src/floatlib.c:436-442 | The last lines round correctly whenever the exponent field is in range, a carry into the exponent included |
| SoftFloat.TinyExact | test-progs/src/floatlib.c:410-413 | The test for tininess is the one of IEEE 754-2008 section 7.5 after rounding, as `Rounding.TinyIsRounded` states it |
| SoftFloat.GrainShift | test-progs/src/floatlib.c:414-429 | Shifting right with a sticky last bit keeps every comparison that rounding makes |
| SoftFloat.RoundSigNearest | test-progs/src/floatlib.c:438-439 | Adding 0x40, shifting by 7 and clearing the last bit on a tie is rounding of the significand to nearest even |
| SoftFloat.EstimateDiv64To32 | test-progs/src/floatlib.c:147-206 | For a divisor of at least 2^31, the estimate lies between q and q + 2 for the truncated quotient q, or is all ones when the quotient does not fit |
| SoftFloat.QuotientNearBounds | test-progs/src/floatlib.c:147-206 | What the estimate being near means, stated with integer division |
| SoftFloat.HighDigitOf | test-progs/src/floatlib.c:155-202 | The first 16-bit digit after the correction loop |
| SoftFloat.LowDigitOf | test-progs/src/floatlib.c:203-204 | The second digit, at most two too large |
| SoftFloat.CorrectHighDigit | test-progs/src/floatlib.c:188-202 | The correction loop ends with the exact remainder, nonnegative and below b * 2^16 |
| SoftFloat.CorrectQuotient | test-progs/src/floatlib.c:1354-1367 | The correction loop of the division ends with the true quotient and remainder |
| SoftFloat.QuotientSignificand | test-progs/src/floatlib.c:1320-1369 | The quotient word with sticky bit stands for the exact quotient although it is corrected only when its low six bits are at most 2 |
| SoftFloat.CountLeadingZeros32 | test-progs/src/floatlib.c:208-241 | The count n satisfies 2^31 <= a * 2^n < 2^32 for nonzero a, and is 32 for 0 |
| SoftFloat.NormalizeSubnormal | test-progs/src/floatlib.c:1191-1195 | A subnormal significand is brought to 24 bits without changing the value |
| SoftFloat.Unpack | test-progs/src/floatlib.c:1188-1211 | Significand and exponent of any finite nonzero operand, its value unchanged |
| SoftFloat.NaNPropagates | test-progs/src/floatlib.c:268-290 | A NaN result is the quiet form, sign and payload kept, of a NaN operand, of the signaling one if only one is; invalid is raised exactly for a signaling operand |
| SoftFloat.NaNKinds | test-progs/src/floatlib.c:98 | A signaling NaN is a NaN without the quiet bit, and the default NaN is a NaN with it |
| LzwCodes.InStepStart | test-progs/src/compress.c:207 | Before the second byte nothing has been sent and the string held is the input |
| LzwCodes.InStepMatch | test-progs/src/compress.c:219-223 | A hit keeps coder and decoder in step |
| LzwCodes.InStepWrite | test-progs/src/compress.c:257 | Writing the held code makes the decoder write the input so far and brings its table level with the coder |
| LzwCodes.InStepMiss | test-progs/src/compress.c:243-251 | A miss that writes the code and enters the pair keeps the two in step, the code that is used before the decoder knows it included |
| LzwCodes.InStepClear | test-progs/src/compress.c:252-255 | Giving up the full table keeps the two in step |
| LzwCodes.InStepEnd | test-progs/src/compress.c:257-259 | At the end of the input the decoder has written exactly the input |
| LzwCodes.ExpandEntry | test-progs/src/compress.c:377-388 | An entry spells the string of its prefix and one more byte |
| LzwHash.Search | test-progs/src/compress.c:216-242 | The probe loop ends, at a slot with the key or at one that ends every search for it |
| LzwHash.ProbesDistinct | test-progs/src/compress.c:228-233 | The first 5003 probes are different slots because 5003 is prime |
| LzwHash.SearchEnds | test-progs/src/compress.c:228-242 | A search that goes on has visited that many different used slots |
| LzwHash.HitIsSound | test-progs/src/compress.c:219-238 | A hit is the code of exactly the pair looked for |
| LzwHash.MissIsComplete | test-progs/src/compress.c:239-243 | A miss means that no entry has the pair, except the pair of prefix 0 and byte 0 whose key is 0 |
| LzwHash.FindableStays | test-progs/src/compress.c:249-250 | Entering a pair where its search ended keeps every other entry findable |
| LzwHash.EnterKeepsIndex | test-progs/src/compress.c:247-251 | The table with the new pair is again an index of the dictionary |
| LzwPack.GetPut | test-progs/src/compress.c:278-294 | What is read at a bit offset is the code put there, and the bits before it stay |
| LzwPack.GetAgree | test-progs/src/compress.c:433-446 | A code depends on no bits after its end |
| LzwPack.ReadNext | test-progs/src/compress.c:407-448 | The next code is read at the width and the place at which it was written, across every change of width and every clear, if and only if no byte 0xFF disturbs the reader on its way |
| LzwPack.ReadEnd | test-progs/src/compress.c:422-429 | After the last code the reader reports the end if and only if no byte 0xFF leaves it something to read |
| LzwPack.ExtendsPut | test-progs/src/compress.c:278-307 | A stream that continues the packer after a code holds that code |
| LzwStream.UnpackPacked | test-progs/src/compress.c:272-449 | Unpacking gives back every code and then the end wherever no byte 0xFF is in the way |
| LzwStream.UnpackExact | test-progs/src/compress.c:272-449 | For every code sequence, the codes are read one by one where they were written, and then the end, if and only if the bytes 0xFF of the stream are where they do not disturb |
| LzwStream.NoMarkUnmarked | test-progs/src/compress.c:422-427 | A stream without the byte 0xFF does not disturb |
| LzwStream.EndMarkInData | test-progs/src/compress.c:425-426 | The one byte 0xFF is packed to a stream that is read back as empty |
| LzwStream.FirstMarkEnds | test-progs/src/compress.c:422-429 | Whatever follows, a stream whose first code is the byte 0xFF is read back as empty |
| LzwStream.UnmarkedRead | test-progs/src/compress.c:272-449 | Where no byte 0xFF disturbs, the codes read from a packed sequence are that sequence |
| LzwStream.CodesReadReads | test-progs/src/compress.c:399-449 | `getcode` comes to -1 on every stream of codes that a coder may send |
| LzwStream.CodeFits | test-progs/src/compress.c:308-330 | Every code the decoder accepts next fits the width in force |
| LzwStream.WriterNext | test-progs/src/compress.c:272-340 | How one more code changes the packer, its width and its sent bytes |
| LzwStream.ClearControls | test-progs/src/compress.c:317-321 | Coder and decoder change the width at the same code although they count the CLEAR differently |
| Compress.RoundTrip | test-progs/src/compress.c:183-449 | For every input, the stream packs a code sequence that decodes to it; what comes back is what the codes read from the stream decode to, which is the input whenever no byte 0xFF disturbs, as in every stream without one, and nothing at all for every input that begins with the byte 0xFF |
| Compress.FirstLost | test-progs/src/compress.c:183-449 | The codes for an input that begins with the byte 0xFF are packed to a stream that decodes to nothing |
| Compress.FirstWritten | test-progs/src/compress.c:341-357 | The first code is the first byte written |
| LzwGreedy.TableIs | test-progs/src/compress.c:243-251 | Between two CLEARs the table has an entry for every code but the last one: the string of the code and the first byte of the next string |
| LzwGreedy.ClearForgets | test-progs/src/compress.c:361-369 | After a CLEAR decoding goes on as from the beginning |
| LzwGreedy.SameCode | test-progs/src/compress.c:218-241 | A string that does not begin with two zeros has one code in the table of the coder |
| LzwGreedy.MissEnds | test-progs/src/compress.c:218-243 | When the search for the string and one more byte fails, no string of the table continues the match |
| LzwGreedy.GreedyMiss | test-progs/src/compress.c:243-256 | The code sent then, and all before it, stand for longest matches |
| LzwGreedy.GreedyEnd | test-progs/src/compress.c:258 | So does the code sent at the end of the input |
| LzwGreedy.ClearsNext | test-progs/src/compress.c:252-256 | CLEAR follows a code if and only if the table is full, a check is due and the ratio has not improved |
| LzwGreedy.DueNext | test-progs/src/compress.c:247-256 | A check is due exactly when the table is full and the input read has reached the checkpoint |
| LzwGreedy.ClearRare | test-progs/src/compress.c:252-256 | No CLEAR is sent while the table has room, in the first 9999 bytes, or within 10000 bytes of another one |
| LzwGreedy.WidthIs | test-progs/src/compress.c:308-330 | The width of the next code is nine bits, and one more from 512, 1024 and 2048 codes in use on |
| Compress.Compressor.Run | test-progs/src/compress.c:183-268 | For every input, the bytes sent are the packed form of a code sequence which decodes to the input; every code but CLEAR stands for the longest string of the table that the rest begins with (`LzwGreedy.AllLongest`), and CLEAR is sent exactly when the full table has stopped paying at a check (`LzwGreedy.ClearsRight`) |
| Compress.Compressor.Next | test-progs/src/compress.c:214-256 | One byte through the loop: a pair that the table has is used, with no code sent; otherwise the string's code is sent, and CLEAR after it if and only if the table is given up |
| Compress.Compressor.Miss | test-progs/src/compress.c:243-256 | The branch that writes a code, then enters the pair or considers clearing, with CLEAR exactly when `LzwGreedy.GivesUp` says so |
| Compress.Compressor.Enter | test-progs/src/compress.c:247-251 | The pair goes to the slot where its search ended; the hash table stays an index |
| Compress.Compressor.Output | test-progs/src/compress.c:272-331 | One code through the packer, with sent groups and the change of width |
| Compress.Compressor.PackCode | test-progs/src/compress.c:272-307 | The code goes into the buffer, and a full group of eight codes is sent |
| Compress.Compressor.PutBits | test-progs/src/compress.c:278-293 | The masks and shifts put the code into the buffer at the offset |
| Compress.Compressor.Finish | test-progs/src/compress.c:334-338 | The last, partial group is sent |
| Compress.Compressor.ClBlock | test-progs/src/compress.c:474-507 | Keeps coder and decoder in step, and clears if and only if the ratio has not improved since the last check |
| Compress.Compressor.RatioDropped | test-progs/src/compress.c:478-500 | Clears exactly when the ratio, bytes read for bytes sent in fixed point, has not improved |
| Compress.Compressor.ClHash | test-progs/src/compress.c:508-538 | Every slot is empty afterwards |
| Compress.Decompressor.Run | test-progs/src/compress.c:341-398 | From any stream whose codes, up to the first -1 of `getcode`, are codes that a coder may send, writes what they decode to |
| Compress.Decompressor.Loop | test-progs/src/compress.c:360-396 | The loop from the second code to the end |
| Compress.Decompressor.Clear | test-progs/src/compress.c:362-370 | The CLEAR branch with the code fetched after it |
| Compress.Decompressor.Accept | test-progs/src/compress.c:371-395 | One code other than CLEAR, the not yet known one included |
| Compress.Decompressor.WriteString | test-progs/src/compress.c:372-388 | Writes the string of the code, or of the one being defined |
| Compress.Decompressor.Unwind | test-progs/src/compress.c:377-382 | The walk to the first byte pushes the string backwards without leaving the stack |
| Compress.Decompressor.Pop | test-progs/src/compress.c:383-388 | Popping writes the stack in the right order |
| Compress.Decompressor.Enter | test-progs/src/compress.c:389-394 | The decoder learns one entry if there is room |
| Compress.Decompressor.NextCode | test-progs/src/compress.c:400-448 | Does one step of the reader that `ReadNext` and `ReadEnd` are about |
| Compress.Decompressor.ReadGroup | test-progs/src/compress.c:422-427 | The loop stops at the end of the stream or at a byte 0xFF |
| Compress.Decompressor.ReadByte | test-progs/src/compress.c:424 | The next byte of the stream, or 0xFF at its end |
| Compress.Decompressor.Fetch | test-progs/src/compress.c:400-448 | At code k of the codes in such a stream returns that code, or -1 after the last |
| V42Trie.Add | test-progs/src/v42.c:367-403 | Keeps the dictionary invariant: every entry with a parent but the free slot is in exactly one list, that of its parent, spelled strings are consistent, and the free slot is an unlinked leaf in 259..2047 |
| V42Trie.NewTrieValid | test-progs/src/v42.c:336-354 | The invariant holds initially |
| V42Trie.InOneList | test-progs/src/v42.c:367-403 | Every entry with a parent but the free slot is in one child list, once, and its parent spells a shorter string, so the parent chains end |
| V42Trie.FreeSlot | test-progs/src/v42.c:390 | The free slot is a leaf in 259..2047 and in no list |
| V42Trie.SearchFinds | test-progs/src/v42.c:356-365 | A search finds the string extended by the byte; a miss means no entry but the most recent has it |
| V42Trie.NextLeaf | test-progs/src/v42.c:380-388 | The leaf search ends, at the next entry without children in cyclic order |
| V42Trie.FillFilled | test-progs/src/v42.c:373-379 | Filling the free slot links it as the newest child |
| V42Trie.ReleaseValid | test-progs/src/v42.c:390-401 | Taking a leaf out of its list restores the invariant |
| V42Codec.RoundTrip | test-progs/src/v42.c:414-635 | For every input and every sequence of mode changes that `decode` can follow, decoding the stream returns the input, leaves equal dictionaries, and every code fits its width |
| V42Codec.StepInStep | test-progs/src/v42.c:457-533 | Every step with a match below 250, and no extendable match left at the change to the transparent mode, keeps the decoder in step |
| V42Codec.RunInStep | test-progs/src/v42.c:427-533 | The two are in step after every such run |
| V42Codec.LeavingInStep | test-progs/src/v42.c:469-475 | Leaving the compressed mode keeps the two in step if and only if the match is shorter than 250 and cannot be extended by the next byte |
| V42Runs.LeavingFails | test-progs/src/v42.c:457-475 | There is an input on which `encode`, by its own counts, leaves the compressed mode while the match goes on: in step with `decode` before that byte and not after it |
| V42Leaving.LeavingGarbles | test-progs/src/v42.c:457-635 | There is an input on which `encode`, by its own counts and with codes that all fit, leaves the compressed mode in the middle of a match, and `decode` later writes the bytes 0, 1, 0 for the last two bytes, 1 and 0 |
| V42Leaving.Leaves | test-progs/src/v42.c:461-475 | Where that happens: the dictionaries are equal, and `decode` stands at the string of two bytes where `encode` starts over with the second |
| V42Leaving.SecondNext | test-progs/src/v42.c:511-533 | Byte by byte of a second pass through all bytes in order, the two dictionaries grow alike but for one slot |
| V42Leaving.FollowableNotNeeded | test-progs/src/v42.c:457-635 | There is an input on which the step is lost in the same way and the output is right all the same, so that following every step is not necessary for the output |
| V42Codec.LongMatch | test-progs/src/v42.c:529 | In either mode, a match that ends keeps the two in step if and only if it is shorter than 250 |
| V42Codec.LongEntered | test-progs/src/v42.c:486-495 | Entering the compressed mode with a match of 250 that ends breaks the step: the longer string is entered without a look at its length |
| V42Codec.StepExact | test-progs/src/v42.c:457-533 | Any step keeps the two in step if and only if it is one that `decode` can follow |
| V42Codec.RunExact | test-progs/src/v42.c:427-635 | On every input, for any changes of mode, the two are in step after every byte if and only if every step can be followed |
| V42Runs.LongMatchReached | test-progs/src/v42.c:511-533 | There is an input, a run of one byte, on which `encode`, by its own counts, comes in step to a match of 250 bytes, and is not in step after one more byte |
| V42Runs.RoundTripFails | test-progs/src/v42.c:529-533 | There is an input whose stream, with the changes of mode that `encode` itself chooses, makes `decode` fail: its last code is 1005, for which `decode` then has a string of 251 bytes, one more than its buffer of line 538 takes |
| V42Codec.FitsExact | test-progs/src/v42.c:404-413 | All entries of the dictionary can be sent in codes that fit, when the compressed mode begins or later, if and only if every code is below the weight of the width that covers the free slot |
| V42Truncates.CodeTruncated | test-progs/src/v42.c:457-525 | On the sequence of 2058 bytes given by `V42Truncates.Sequence`, `encode`, by its own counts, enters the compressed mode with entries above c3 and sends the code 1325 in nine bits |
| V42Truncates.SequenceSent | test-progs/src/v42.c:427-535 | The whole stream that `encode` sends for that sequence: bytes in the transparent mode, the command for the compressed mode, the code 1325 in nine bits and the end |
| V42Garbles.Garbled | test-progs/src/v42.c:414-635 | The two programs in sequence on that input, into any buffer with room: what `decode` writes is not what `encode` was given |
| V42Garbles.SequenceGarbled | test-progs/src/v42.c:536-597 | The buffer that `encode` leaves is the one of another stream, on which the decoder does not fail and writes something else |
| V42Garbles.SameBuffer | test-progs/src/v42.c:299-327 | In nine bits at the end of a stream of whole bytes, the codes 1325 and 301 leave the same buffer |
| V42Codec.SentReceived | test-progs/src/v42.c:521-525 | Sending the match makes the decoder write it and catch up with the one entry it lacked |
| V42Codec.SwitchedToCompressed | test-progs/src/v42.c:486-495 | Entering the compressed mode keeps the two in step |
| V42Codec.SwitchedRestart | test-progs/src/v42.c:476-484 | Starting over keeps the two in step |
| V42Codec.WidenReceived | test-progs/src/v42.c:404-413 | The codes that announce a wider code bring the decoder to the same width |
| V42Codec.StepFits | test-progs/src/v42.c:404-413 | In the compressed mode every code fits its width, from a dictionary whose entries do; `FitsExact` says exactly which |
| V42Codec.EndedInStep | test-progs/src/v42.c:437-448 | The end of the data gives the decoder what was still unsent |
| V42Codec.SteeredNext | test-progs/src/v42.c:457-533 | The decisions that the bit counts lead to, byte by byte |
| V42Escape.EncoderEscape | test-progs/src/v42.c:505-510 | After any input, for any changes of mode, the escape byte of `encode` is 51 times the number of its occurrences since the last restart, modulo 256 |
| V42Escape.DecoderEscape | test-progs/src/v42.c:588-620 | After any tokens, the escape byte of `decode` is 51 times the number of its occurrences in what has been written since the last restart, modulo 256 |
| V42Escape.EscapesDistinct | test-progs/src/v42.c:510 | Two counts of occurrences have the same escape byte if and only if they differ by a multiple of 256 |
| V42Escape.EscapedOnce | test-progs/src/v42.c:505-510 | No byte value is escaped again before every other one has been |
| V42Escape.StepEscape | test-progs/src/v42.c:510 | One byte of `encode` moves the escape byte on if it is that byte, and a restart resets it |
| V42Escape.TwoZeros | test-progs/src/v42.c:501-510 | The bytes 0, 0 are sent as 0, 1, 0 |
| V42Signals.Longest | test-progs/src/v42.c:511-532 | A match goes on exactly as long as the dictionary has the longer string in an entry other than the most recent; then its code is sent in the width due, and the free slot takes the longer string unless the match has 250 bytes |
| V42Signals.Decisions | test-progs/src/v42.c:457-499 | Every 257 bytes, and at no other time, the bits of the codes are compared with the 2056 bits of the bytes: the compressed mode is left where it has not paid and entered where it has, and from the fifth loss on, with codes wider than nine bits, `encode` starts over |
| V42Signals.WindowIs | test-progs/src/v42.c:457-499 | The bits counted are those of the bytes since the last comparison |
| V42Signals.LossesCounted | test-progs/src/v42.c:476-478 | The count of losses is of those in the transparent mode since the last restart |
| V42Signals.Controls | test-progs/src/v42.c:459-505 | The control codes are those of ITU-T V.42 bis: ETM, FLUSH and STEPUP in the compressed mode, ECM, EID and RESET after an escape byte |
| V42Signals.StartsOver | test-progs/src/v42.c:608-611 | A decoder told to starts over, and keeps what it has written |
| V42Signals.WidthLeast | test-progs/src/v42.c:404-413 | The width is the least one, from that in use on, in which the free slot has a code, and each step to it is announced in the width before |
| V42Bits.GetTop | test-progs/src/v42.c:291-294 | The 32-bit shifts of `getcode` pick exactly the bits of the code |
| V42Bits.PutGet | test-progs/src/v42.c:319-326 | What `putcode` stores `getcode` reads; the bits before stay and those after are clear |
| V42Bits.ReadBack | test-progs/src/v42.c:267-327 | A code is read back as it was put if and only if it fits the width |
| V42Bits.GetAgree | test-progs/src/v42.c:291-294 | A code depends on no bits after its end |
| V42Bits.OrDisjoint | test-progs/src/v42.c:325 | The or with clear bits is a sum |
| V42Bits.PutHolds | test-progs/src/v42.c:299-327 | One more token is stored without touching the earlier ones |
| V42Bits.PutAllHolds | test-progs/src/v42.c:299-327 | The buffer holds every code where it was put, in the width in which it was put |
| V42Dict.FillRepresents | test-progs/src/v42.c:373-379 | The stores of the first half of `add_dict` on the linked array are the filling of the dictionary |
| V42Dict.ReleaseRepresents | test-progs/src/v42.c:391-401 | The unlinking stores are the release of the leaf |
| V42Dict.ChainCut | test-progs/src/v42.c:393-400 | Bypassing an entry leaves the list without it |
| V42.RoundTrip | test-progs/src/v42.c:414-635 | `encode` into a blank buffer and `decode` from it returns the input, whenever every step can be followed and the buffer has room |
| V42.Drive | test-progs/src/v42.c:414-635 | On every input whose codes fit and on which `decode` does not fail, the two programs in sequence give what the specified decoder writes on the stream |
| V42.StreamReadable | test-progs/src/v42.c:414-635 | What `encode` leaves in the buffer can be read to its end |
| V42.StreamHeld | test-progs/src/v42.c:414-535 | On every input, for any changes of mode, a blank buffer with room holds the stream if all codes fit |
| V42.Modem.Encode | test-progs/src/v42.c:414-535 | The buffer holds the tokens of the specified stream, for the mode changes that the counts lead to (`V42Signals.Decisions`); the escape byte in it is that of `V42Escape.EncoderEscape` |
| V42.Modem.EncodeByte | test-progs/src/v42.c:427-533 | One byte of the loop |
| V42.Modem.Regulate | test-progs/src/v42.c:457-499 | The mode decisions and what is sent for them |
| V42.Modem.LeaveCompressed | test-progs/src/v42.c:461-475 | Leaving the compressed mode |
| V42.Modem.Extend | test-progs/src/v42.c:511-532 | The match goes on, or is sent and the longer string entered unless it has 250 bytes |
| V42.Modem.Take | test-progs/src/v42.c:501-532 | The byte itself, in either mode; the escape byte moves on by 51 where it occurs (`V42Escape.StepEscape`) |
| V42.Modem.Close | test-progs/src/v42.c:437-448 | The end of the data |
| V42.Modem.ChecksizeDict | test-progs/src/v42.c:404-413 | The width codes sent and the width afterwards |
| V42.Modem.Decode | test-progs/src/v42.c:536-635 | Writes what the specified decoder writes on the tokens in the buffer |
| V42.Modem.InCompressed | test-progs/src/v42.c:566-597 | One code in the compressed mode |
| V42.Modem.InTransparent | test-progs/src/v42.c:599-632 | One byte in the transparent mode, with its command if it is the escape byte, which is 51 times the number of its occurrences (`V42Escape.DecoderEscape`) |
| V42.Modem.Spell | test-progs/src/v42.c:583-585 | The walk along the parents writes the string of the code, within the 250 bytes |
| V42.Modem.InitDict | test-progs/src/v42.c:336-354 | The linked array represents the empty dictionary |
| V42.Modem.SearchDict | test-progs/src/v42.c:356-365 | The walk along the siblings is the search of the dictionary |
| V42.Modem.AddDict | test-progs/src/v42.c:367-403 | The array afterwards represents the dictionary with the entry added |
| V42.Modem.FindLeaf | test-progs/src/v42.c:380-388 | The search ends at the next leaf in cyclic order |
| V42.Modem.FindPrevious | test-progs/src/v42.c:393-396 | The predecessor of an entry in its list |
| V42.Modem.Unlink | test-progs/src/v42.c:391-401 | The entry is taken out of the list of its parent |
| V42.Modem.PutCode | test-progs/src/v42.c:299-327 | End mark, padding and storing of a code |
| V42.Modem.GetCode | test-progs/src/v42.c:267-297 | Start and end marks, padding and reading of a code |
| Bitwise.OpLow | config/scripts/code/back_end.py:670-682 | The low bits of a bitwise operation depend on the low bits of the operands only, which is why C may leave garbage above them |
| Backend.CastAgrees | config/scripts/code/back_end.py:298-535 | Every cast keeps the two codes in agreement: wherever the VHDL has a value, the C is defined and stands for the same |
| Backend.CoercedAgree | config/scripts/code/back_end.py:546-906 | Coercing the operands of any operator keeps agreement |
| Backend.EmitAgrees | config/scripts/code/back_end.py:538-917 | Every binary operator keeps agreement where C keeps up, which is exactly what agreement takes (`KeepsUpExact`); what both compute is `BackendMeaning.BinDenotes` |
| Backend.UnaryAgrees | config/scripts/code/back_end.py:548-604 | Every unary operator keeps agreement |
| Backend.MaskValue | config/scripts/code/back_end.py:322-325 | A mask keeps the low bits of any C value, a negative int included |
| Backend.RelationValue | config/scripts/code/back_end.py:898-913 | In C any of the six relations of two numbers, converted to their common type, is that of their low n bits if and only if what is above them is the same in both or compares as they do, where 32 unsigned bits and n beyond 32 leave the lost signs above |
| Backend.GateValue | config/scripts/code/back_end.py:670-682 | In C a bitwise operation is right on n bits if and only if n is at most 32, or it computes in another type than 32 unsigned bits, or it is an and, or no operand is negative |
| Backend.GateWidths | config/scripts/code/back_end.py:640-668 | Of two vectors of different widths only a first one of one bit gates the second; in the documented order it is an error |
| BackendProgram.GenerateAgrees | config/scripts/code/back_end.py:538-917 | For every well-typed nested expression with vectors of at most 64 bits, C keeping up at the operators evaluated, the C value reduced to the width of the type is the VHDL value, and booleans and naturals are exact without reduction; the value is that of `BackendMeaning.VHDLMeans` |
| BackendProgram.BinAgrees | config/scripts/code/back_end.py:538-917 | The step of the induction for binary operators, short-circuit ones included |
| BackendProgram.LiteralAgrees | config/scripts/code/back_end.py:119-148 | Literals of every type |
| BackendProgram.IndexAgrees | config/scripts/code/back_end.py:281-292 | Reading one bit at a computed index |
| BackendProgram.SliceAgrees | config/scripts/code/back_end.py:281-295 | Reading a slice at a computed offset |
| BackendProgram.CatExact | config/scripts/code/back_end.py:687-724 | A concatenation agrees if and only if its left part, shifted, has no bit of the result above the C type that it is shifted in |
| BackendProgram.ShiftLeftExact | config/scripts/code/back_end.py:844-847 | A left shift agrees if and only if the count is below the width of the C type and no bit of the result is lost above it |
| BackendProgram.ShiftRightExact | config/scripts/code/back_end.py:848-851 | A right shift of a vector agrees if and only if the count is below 64 |
| BackendProgram.GateExact | config/scripts/code/back_end.py:670-684 | A bitwise operation on vectors agrees if and only if no sign that C has lost reaches the vector |
| BackendProgram.SumExact | config/scripts/code/back_end.py:752-787 | A sum or difference of vectors agrees if and only if its low bits reach no further than the C type |
| BackendProgram.RelationExact | config/scripts/code/back_end.py:858-913 | Each of the six relations on vectors agrees if and only if what C has above the vectors is the same in both operands or compares as the vectors do, and no sign lost by 32 unsigned bits tells otherwise |
| BackendProgram.CanonicalCompare | config/scripts/code/back_end.py:858-913 | All relations of operands without garbage agree |
| BackendProgram.CanonicalExact | config/scripts/code/back_end.py:898-913 | An operand of fewer than 64 bits compares right with every literal of its type if and only if it has no garbage |
| BackendProgram.KeepsUpExact | config/scripts/code/back_end.py:607-913 | For every operator but the short-circuit ones, relations included, and all operands that agree, the condition in the agreement theorem is exactly what agreement takes |
| BackendProgram.ComplementExact | config/scripts/code/back_end.py:602-604 | A complement agrees if and only if its C type covers the vector |
| BackendProgram.MinusExact | config/scripts/code/back_end.py:736-750 | A difference of naturals agrees if and only if it is a natural |
| BackendProgram.GarbageCompared | config/scripts/code/back_end.py:898-913 | An example of garbage in one operand only: the complement of an 8-bit vector compares as different from an equal variable |
| BackendProgram.ComplementsCompared | config/scripts/code/back_end.py:898-913 | An example of garbage in both: the complements of two bytes compare right for every pair of bytes and each of the six relations |
| BackendProgram.ConcatenationLost | config/scripts/code/back_end.py:721-724 | An example of the left operand losing its top bit |
| BackendMeaning.GeneratesType | config/scripts/code/back_end.py:538-917 | An error is reported if and only if the expression has no type by the typing rules, and otherwise the code has that type |
| BackendMeaning.VHDLMeans | config/scripts/code/back_end.py:538-917 | For every expression, the VHDL generated has, where it has a value, the value of the expression in plain integers: for every operator, cast, literal, index and slice |
| BackendMeaning.CMeans | config/scripts/code/back_end.py:538-917 | Where C keeps up, the C generated has that value, too: exactly for booleans and naturals, in the low bits for bits and vectors |
| BackendMeaning.BinDenotes | config/scripts/code/back_end.py:607-917 | Every binary operator applied to code for two numbers gives code for the number that the operator means |
| BackendMeaning.UnaryDenotes | config/scripts/code/back_end.py:548-604 | Every unary operator does |
| BackendMeaning.CastDenotes | config/scripts/code/back_end.py:298-535 | Every cast gives code for the number converted to the type |
| BackendAssign.AssignAgrees | config/scripts/code/back_end.py:938-939 | An assigned variable holds in C what it holds in VHDL |
| BackendAssign.AssignSliceAgrees | config/scripts/code/back_end.py:946-952 | An assignment to a slice sets exactly these bits and no others, if and only if the shifted value keeps up |
| BackendAssign.AssignBitAgrees | config/scripts/code/back_end.py:940-945 | An assignment to a bit sets exactly this bit, or is undefined in C, the latter if and only if the bit cannot be moved to its place |
| BackendAssign.SetCut | config/scripts/code/back_end.py:929-952 | Garbage above the vector does not matter for a partial assignment |
| BackendAssign.SetReads | config/scripts/code/back_end.py:929-952 | After a partial assignment the field reads back as the value, and the bits above and below it are as before |
| Allocator.Heap.Malloc | test-progs/src/nostdlib-dynmem.c:34-117 | Returns the payload of the first free block that is large enough, or 0; headers keep tiling the heap, the sum of len + 1 and the block count are right, and all payloads in use are unchanged |
| Allocator.Heap.Free | test-progs/src/nostdlib-dynmem.c:119-197 | Frees and merges exactly the block of the pointer or changes nothing, and keeps all payloads in use; the headers and the count are right afterwards if and only if lines 31 and 152 are repaired or the successor was not free, and the word after the last block, if that one is freed, does not look like a free header |
| Allocator.Heap.Release | test-progs/src/nostdlib-dynmem.c:131-163 | The same for the part that merges and writes the header, with the exact block count |
| Allocator.Heap.Init | test-progs/src/nostdlib-dynmem.c:28-32 | The first call makes one block of the heap |
| Allocator.ClaimedSpan | test-progs/src/nostdlib-dynmem.c:66-90 | `malloc` conserves the words of the chain |
| Allocator.FreedSpan | test-progs/src/nostdlib-dynmem.c:137-157 | `free` conserves the words of the chain |
| Allocator.ClaimedCoalesced | test-progs/src/nostdlib-dynmem.c:66-90 | `malloc` never leaves two free neighbours if there were none |
| Allocator.FreedCoalesced | test-progs/src/nostdlib-dynmem.c:137-157 | `free` never leaves two free neighbours if there were none |
| Allocator.ClaimedKeeps | test-progs/src/nostdlib-dynmem.c:66-90 | Every other block keeps its place and state when one is given out |
| Allocator.FreedKeeps | test-progs/src/nostdlib-dynmem.c:137-157 | Every block in use keeps its place when another is freed |
| Allocator.ClaimedChain | test-progs/src/nostdlib-dynmem.c:66-90 | The headers written by `malloc` describe the new chain |
| Allocator.ClaimedTight | test-progs/src/nostdlib-dynmem.c:66-90 | The payload given out is at most one word longer than asked for, and what is cut off is a free block with a payload of its own |
| Allocator.FreedChain | test-progs/src/nostdlib-dynmem.c:137-157 | The full header written by `free` describes the merged chain |
| Allocator.ShortHeader | test-progs/src/nostdlib-dynmem.c:149-165 | The header that line 152 leads to, one word short, sends the walk to the word before the next block and does not describe the chain |
| Allocator.WholeHeap | test-progs/src/nostdlib-dynmem.c:28-117 | As written, one call that asks for the whole new heap gets a payload whose last word is behind the array |
| Allocator.WholeFreed | test-progs/src/nostdlib-dynmem.c:28-165 | Taking it back leaves the heap in order if and only if the word behind the array does not look like a free header |
| Allocator.OneWord | test-progs/src/nostdlib-dynmem.c:28-165 | One word taken from a new heap and given back: the headers tile the heap if and only if the merge is repaired |
| Allocator.PayloadsDisjoint | test-progs/src/nostdlib-dynmem.c:20-26 | Payloads of different blocks have no word in common |
| Allocator.PayloadIsNoHeader | test-progs/src/nostdlib-dynmem.c:20-26 | No word of a payload is a header |
| Allocator.PayloadInside | test-progs/src/nostdlib-dynmem.c:28-32 | A payload lies in the array if and only if it is not that of the last block of a chain that claims one word too many, as the initial size does |
| Hierarchy.TreeIsRight | config/scripts/common/interpreter.py:143-299 | Whenever a tree is returned, its preorder walk is exactly the command sequence and every command has each child as often as its rule allows |
| Hierarchy.PreorderCounts | config/scripts/common/interpreter.py:226-248 | The preorder walk of a tree built this way is the document order |
| Hierarchy.PlaceOnPath | config/scripts/common/interpreter.py:233-285 | The stack stays a path of last children from the root to the newest command |
| Hierarchy.PlaceFitting | config/scripts/common/interpreter.py:233-285 | Entries on the stack keep what is left of their rules, and entries popped are complete |
| Hierarchy.BuiltFitting | config/scripts/common/interpreter.py:229-290 | The same after any number of commands |
| Hierarchy.CompleteDone | config/scripts/common/interpreter.py:213-219 | An entry that may be popped has the children its rule asks for |
| Hierarchy.LeftNext | config/scripts/common/interpreter.py:250-254 | One more occurrence uses up the pattern as its multiplicity says |
| Hierarchy.AddedOrdered | config/scripts/common/interpreter.py:246-248 | Appending to the last path keeps children in document order |
| Hierarchy.Builder.Run | config/scripts/common/interpreter.py:143-299 | Returns the specified tree, and fails if and only if the specification does |
| Hierarchy.Builder.Add | config/scripts/common/interpreter.py:229-290 | Puts the next command under the closest ancestor that accepts it, or fails |
| Hierarchy.Builder.PopStack | config/scripts/common/interpreter.py:205-223 | Pops if and only if nothing required is missing |
| Hierarchy.Builder.Lookup | config/scripts/common/interpreter.py:259-266 | The first rule for a command |
| Hierarchy.Builder.Insert | config/scripts/common/interpreter.py:246-269 | Appends the child, updates the pattern and opens an entry if the command may have children |
| HierarchyClosest.PlacedExactly | config/scripts/common/interpreter.py:233-290 | For rules of any kind, a command is placed if and only if some entry of the stack accepts it and every entry above neither accepts it nor still requires a child, and then under exactly that entry |
| HierarchyClosest.AllowedMeans | config/scripts/common/interpreter.py:151-154 | A child that a rule lists once may occur at most once for ?, exactly once for !, at least once for + and any number of times otherwise, and a command not listed never |
| HierarchyClosest.AcceptsFirst | config/scripts/common/interpreter.py:259-266 | The children of a command are those of the first rule that names it |
| HierarchyComplete.NothingLost | config/scripts/common/interpreter.py:143-299 | For rules in which no command is accepted both by a parent and by what may stand below it, and none is named twice by a rule, a tree is returned if and only if some placement of the commands in document order meets every multiplicity; there is only one such placement |
| HierarchyComplete.Completes | config/scripts/common/interpreter.py:229-297 | Whenever there is such a placement, the tree returned is that of the placement |
| HierarchyComplete.PlacedNext | config/scripts/common/interpreter.py:233-290 | The next command is put where the placement puts it |
| HierarchyComplete.Passed | config/scripts/common/interpreter.py:205-223 | An entry above the parent that the placement has for the next command can be popped and does not accept the command |
| HierarchyComplete.StillThere | config/scripts/common/interpreter.py:233-254 | That parent is still on the stack and still accepts the command |
| HierarchyComplete.WholeNext | config/scripts/common/interpreter.py:246-269 | The stack keeps every command that the last one ends and that may have children |
| HierarchyComplete.StackBeneath | config/scripts/common/interpreter.py:256-269 | An entry of the stack may stand below every entry under it on the stack |
| HierarchyComplete.BuiltGrown | config/scripts/common/interpreter.py:229-290 | Every tree built is that of a placement in document order |
| HierarchyComplete.ClosestFails | config/scripts/common/interpreter.py:160-161 | There are rules and commands that have such a placement, and the builder fails |
| HierarchyComplete.RankedUnambiguous | config/scripts/common/interpreter.py:143-161 | Rules are unambiguous if their parents can be ranked so that each command ranks above the parents that accept it, which are all of one rank |
| HierarchyComplete.RegistersUnambiguous | config/scripts/cregs/registers.py:84-112 | The rules for the control registers are unambiguous, so for them nothing is lost |
| Adpcm.Lockstep | test-progs/src/adpcm1.c:93-264 | From equal states, for any samples, the outputs of the decoder are the predictions that the coder has added up for itself, and the final states agree |
| Adpcm.CoderDecoder | test-progs/src/adpcm1.c:136-172 | The prediction that the coder adds up while it quantizes is the one that the decoder makes of the code |
| Adpcm.RoundTrip | test-progs/src/adpcm1.c:93-264 | The same for the two programs one after the other, through the packed bytes, odd lengths included |
| Adpcm.ErrorBound | test-progs/src/adpcm1.c:116-166 | If the sample is less than two steps away from the prediction, the new prediction is within step / 8 + 2 of it |
| Adpcm.QuotientError | test-progs/src/adpcm1.c:136-154 | The three-digit quotient approximates the difference that well |
| Adpcm.BestCode | test-progs/src/adpcm1.c:117-172 | For every state and sample, none of the sixteen codes would bring the decoder closer to the sample than the code chosen by more than one |
| Adpcm.NearestChange | test-progs/src/adpcm1.c:136-154 | No other magnitude comes closer to the difference by more than one |
| Adpcm.LoudSample | test-progs/src/adpcm1.c:136-161 | A sample two steps or more away gets the largest magnitude, and the prediction moves towards it by step + step / 2 + step / 4 + step / 8 |
| Adpcm.IndexLaw | test-progs/src/adpcm1.c:169-173 | A magnitude below 4 lowers the index of the step by one, a magnitude m from 4 on raises it by 2 (m - 3), within 0..88 |
| Adpcm.ChangeMeans | test-progs/src/adpcm1.c:229-241 | A magnitude m stands for m and a half quarters of the step, less at most what three shifts drop |
| Adpcm.PackedByte | test-progs/src/adpcm1.c:178-188 | The first of two codes is the high half of their byte, and a last one alone has zeros beside it |
| Adpcm.PackedNibble | test-progs/src/adpcm1.c:219-224 | Taking the k-th nibble out of the signed bytes gives the k-th code |
| Adpcm.PackedNext | test-progs/src/adpcm1.c:178-184 | How one more code changes the bytes |
| Adpcm.Quantize | test-progs/src/adpcm1.c:136-154 | The digits of the quotient and the change of the prediction added up with them, which no other magnitude betters by more than one (`NearestChange`) |
| Adpcm.CodeSample | test-progs/src/adpcm1.c:117-174 | One sample through the coder: the code, which no other betters by more than one (`BestCode`), and the prediction and index that the coder itself goes on with |
| Adpcm.Coder | test-progs/src/adpcm1.c:93-192 | Writes the packed codes and nothing after them, and leaves the final state, for the codes of `BestCode` and the steps of `IndexLaw` |
| Adpcm.DecodeCode | test-progs/src/adpcm1.c:229-254 | One code through the decoder |
| Adpcm.DecodeCodes | test-progs/src/adpcm1.c:195-264 | Writes the outputs and nothing after them, and leaves the final state |
| Des.Inversion | test-progs/src/des.c:346-406 | For every schedule, every block and any round tables, deciphering undoes enciphering and the other way round |
| Des.DesEncrypt | test-progs/src/des.c:346-406 | The program on arrays computes the block function of the standard (`DesStandard.CryptIsStandard`), also when input and output are one array, and changes nothing else |
| Des.Encipher | test-progs/src/des.c:366-378 | The loop upwards through the schedule |
| Des.Decipher | test-progs/src/des.c:383-395 | The loop downwards through the schedule |
| Des.BackwardsUndoes | test-progs/src/des.c:383-395 | Rounds in reverse order on exchanged halves undo the rounds one pair at a time |
| Des.ForwardsUndoes | test-progs/src/des.c:366-378 | The same with the directions exchanged |
| Des.PermutationInverse | test-progs/src/des.c:357-361 | The five exchanges in reverse order undo the permutation, both ways round |
| Des.ExchangeTwice | test-progs/src/des.c:357-361 | An exchange of bits under a mask is its own inverse |
| Des.RotationInverse | test-progs/src/des.c:362-363 | The rotations before and after the rounds cancel |
| Des.RoundsUndone | test-progs/src/des.c:368-375 | Two rounds are undone by the same two with the halves and the words exchanged |
| DesStandard.PermutedIs | test-progs/src/des.c:357-361 | Each of the 64 bits of the permuted block is the one that the table IP of FIPS 46-3 names for it |
| DesStandard.AddressBits | test-progs/src/des.c:368-375 | Each of the six bits at which a round looks up each of the eight tables is the bit of the half that the table E of FIPS 46-3 selects, added to its bit of the key |
| DesStandard.RoundIs | test-progs/src/des.c:368-375 | A round joins the eight tables at exactly these addresses |
| DesStandard.ForwardsRounds | test-progs/src/des.c:366-378 | The loop upwards is sixteen Feistel rounds that take the key words in order |
| DesStandard.BackwardsRounds | test-progs/src/des.c:383-395 | The loop downwards takes them from the last ones down |
| DesStandard.CryptIsStandard | test-progs/src/des.c:346-406 | The block function is initial permutation, sixteen rounds in the order of the keys, and the inverse permutation of the exchanged halves |
| Crc.Tables.Crc | test-progs/src/crc.c:24-77 | For every message on which its loop ends, the table-driven program, with its 16-bit counter, equals folding the bitwise CRC over the bytes, reversed on the way in and out when `jrev` is negative |
| Crc.CounterEnds | test-progs/src/crc.c:54 | The 16-bit counter of that loop goes beyond the length if and only if the length is below 65535 |
| Crc.Continues | test-progs/src/crc.c:41-51 | Going on with `jinit` = -1 on the rest of a message equals one call on the whole |
| CrcDivision.OneRemainder | test-progs/src/crc.c:10-65 | For every message and register, the CRC is the one remainder of the register and the message, shifted by sixteen places, on division by x^16 + x^12 + x^5 + 1 over the bits |
| CrcDivision.IsRemainder | test-progs/src/crc.c:10-65 | The bits shifted out are the quotient, and the CRC is the remainder |
| CrcDivision.FeedDivides | test-progs/src/crc.c:14-20 | One bit shifted out takes away one multiple of the polynomial |
| CrcDivision.ByteFeeds | test-progs/src/crc.c:10-22 | Eight steps on a byte at the top of the register feed in its eight bits, the highest first |
| CrcDivision.BitsReversed | test-progs/src/crc.c:37 | `rchr` has the bits of each byte in reverse order |
| CrcDivision.WordReversed | test-progs/src/crc.c:49 | A register is reversed by exchanging its bytes, each reversed |
| Crc.TableStepIs | test-progs/src/crc.c:54-65 | One lookup does what eight bit steps do |
| Crc.StepsLinear | test-progs/src/crc.c:10-22 | Bit steps are linear in the register |
| Crc.LowByte | test-progs/src/crc.c:36 | Eight steps bring a low byte up without losing a bit |
| Crc.BitwiseCrc | test-progs/src/crc.c:10-22 | The shift loop is eight bit steps of the register with the byte in its high half |
| Crc.FoldConcat | test-progs/src/crc.c:54-65 | Folding over a concatenation is folding over the parts |
| Crc.RevWordTwice | test-progs/src/crc.c:49 | Reversing a register twice changes nothing, so a call can take back what the one before has returned |
| Crc.NibblesReverse | test-progs/src/crc.c:37 | The two lookups of half bytes reverse the bits of the byte |
| Crc.Tables.Fill | test-progs/src/crc.c:31-39 | Both tables are right after the first call |
| Crc.Tables.Advance | test-progs/src/crc.c:54-65 | One byte of the message loop |

## Left out

- Compress.RoundTrip: where the codes read are not ones that a coder may send at that place, the decompressor goes through table entries that it has not made, and nothing is said of the output; that is possible only where a byte 0xFF disturbs (LzwStream.UnpackExact).
- Compress.Decompressor.Run: for the same streams only, as is Compress.Decompressor.Fetch.
- Compress.Compressor.Run: a rest of the input that begins with two zeros is not claimed to be matched by a longest string, because the key of that pair is 0, which the probing takes for the end of its search. The three magic bytes of the header are counted in `bytes_out` but not part of `outbuf`; `maxbits` is 12 and `block_compress` is set, the only values the program uses. Integers of `in_count` and `bytes_out` are unbounded.
- V42.RoundTrip: for runs that `decode` can follow (V42Codec.Followable): a match below 250 wherever one ends, no extendable match when the compressed mode is left, and codes that fit when it is entered. Each condition is exact for being in step or for being read back (V42Codec.RunExact, V42Codec.FitsExact, V42Bits.ReadBack), and each fails on an input that is not given back. For the output of an input they are not necessary (V42Leaving.FollowableNotNeeded); which inputs that lose step come out right is not characterised. `unsigned long` has 32 bits, as on the target.
- SoftFloat.Mul: nearest-even rounding only, the mode the library starts in; exception masks and directed rounding are not modelled.
- SoftFloat.Div: the same.
- Bakery.NoDeadlock: no fairness here; BakeryFair.NoStarvation has it. Further, tickets are unbounded: the wrap-around of `int` tickets is not modelled. The number of threads is arbitrary, the number of locks is 4 as in the source. Fairness is assumed of a run, not derived from a scheduler.
- Quicksort.Sort: a comparator that is not a total preorder is not covered, nor an element size of zero.
- BackendProgram.GenerateAgrees: under BackendProgram.Tame, which asks at each operator evaluated exactly what C needs there (BackendProgram.KeepsUpExact); where an operator deep in an expression fails, the whole may still agree by coincidence. VHDL integers have 32 bits, vectors at most 64.
- Backend.CastAgrees: casts to a vector class without a size, and casts of aggregates, are not modelled; every target has its size.
- Backend.EmitAgrees: comparison of aggregates is not modelled.
- `back_end.py`: the texts themselves, references with a context, aggregates and the surrounding statements; code is an expression tree for each target. `front_end.py` is not part of this model.
- Allocator.Heap.Free: when the word after the chain looks like a free header, the length written is that of the model's arithmetic; what a later call does with a heap out of order is not modelled.
- Allocator: `realloc`, `calloc` and interrupt masking; the messages of `rvex_fail` are the result 0 or no change.
- Hierarchy.TreeIsRight: which commands are rejected is settled in whole for unambiguous rules (HierarchyComplete.NothingLost) and command by command for any rules (HierarchyClosest.PlacedExactly). Commands are known by their numbers: arguments, origins and documentation text are left out.
- Adpcm.ErrorBound: below two steps of difference only; from there on the code saturates, with Adpcm.LoudSample and Adpcm.BestCode in its place.
- Adpcm.DecodeCodes: the state's step index is in 0..88 and its prediction a 16-bit number, as every state that the coder or decoder leaves.
- Crc.Tables.Crc: nothing is said of a message of 65535 bytes or more, on which the loop does not end (Crc.CounterEnds).
- Des.Inversion: the key schedule and the contents of the round tables are arbitrary; the wiring around them is that of the standard (DesStandard).
- The drivers in `main`, console output and reference data; trigonometry in `v42.c`; binary64, addition and conversions in `floatlib.c`; option parsing in `compress.c`.
- The other benchmarks and scripts, which would add easier members or mostly tables.
