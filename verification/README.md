# A verified model of the Forth machine

A Dafny model of a small Forth system for a microcontroller, and proofs about it: the
byte-addressed bus, the first-fit heap whose block headers live between the payloads,
the two fixed pools, the threaded-code compiler with its inner interpreter, string and
number literals, and the word headers of the dictionary.

`dafny verify dfyconfig.toml` checks the whole project. Where the source changes state in
place the model is a class whose methods are proved against a function of the old state;
the properties are lemmas about those functions and invariants over runs of them.

| file | models | main results |
|---|---|---|
| `Words.dfy`, `Bus.dfy` | `hardware.c` | 32-bit accesses are four byte accesses; ring transfers read back what they wrote |
| `HeapBlocks.dfy`, `HeapMemory.dfy`, `Heap.dfy`, `HeapRuns.dfy` | `forth_heap.c` | tiling over every run, exact first fit, free undoes allocate, live data survives |
| `Stacks.dfy`, `Threaded.dfy`, `VirtualMachine.dfy` | `forth_vm.c`, `forth_dict.c` | the machine with its words and loops, on values and in place |
| `Compiler.dfy`, `Nesting.dfy` | compile words | what any nesting of IF, ELSE, THEN, BEGIN, UNTIL writes, and exactly when it fits |
| `Simulation.dfy`, `Correctness.dfy` | fetch loop | the loop reaches the end of the code with c' if and only if the program means c' |
| `Modes.dfy` | REPL and compile mode | interpreting a text equals compiling and running it |
| `Strings.dfy` | `S"`, `."` | from the source line through compiled code back to the bytes |
| `Numbers.dfy`, `NumberText.dfy` | printers, `parse_forth_number` | every printed number reads back; the characters printed and accepted |
| `Dictionary.dfy` | `dict_add_word`, snapshot walker | the walker returns the definitions in reverse order |
| `ChunkPool.dfy`, `CellPool.dfy` | `forth_chunk_pool.c`, `forth_cell_pool.c` | the free list is the complement of the live set; the counter counts the bits |

## Faults of the source that the model shows

Both readings are in the model, selected by a parameter; `AsWritten` is the source.

* Merging adds 8 although both sizes count their headers (`forth_heap.c:109`).
  `HeapBlocks.MergeAsWrittenBreaksTiling` reproduces the 1048584 bytes that the project's
  own README records at line 306, and `HeapBlocks.ReleaseAsWritten` says exactly when a free
  is right nevertheless: when neither neighbour of the freed block is free. Runs are proved
  for the merge without the 8 (`Repaired`), and `HeapRuns.RunsAsWritten` carries them over to the
  source as it stands for exactly the runs without a free that merges or a request that collides.
* `0BRANCH` takes its operand for an address (`forth_dict.c:847-861`), which is what UNTIL
  emits, but IF and ELSE patch an offset (`forth_dict.c:1306-1329`). As written a false flag at
  IF sends the ip out of the memory map (`Simulation.FalseIfFaults`). So the loop reaches the end
  with the intended answer exactly when no IF on the way meets one (`Correctness.LoopAsWritten`),
  and any false flag on the way ends the process (`Correctness.FalseFlagCrashes`).
  `Repaired` makes `0BRANCH` relative like BRANCH (`forth_dict.c:843-845`) and lets UNTIL emit
  the offset formula of AGAIN (`forth_dict.c:1105`). Every theorem about compiling and running
  is proved for both.
* The table entry of RSHIFT carries the token of LSHIFT (`forth_dict.c:94`):
  `Modes.RshiftAgreesExactly` says for which operands that goes unnoticed, and
  `Modes.InterpretIsCompiledRun` what compiled code computes otherwise.
* ARSHIFT narrows its operand to 8 or 16 bits except at counts of 32 and more
  (`forth_dict.c:215-218`): `Stacks.ArshiftAtTheEnd`.
* No return address is pushed before a word runs (`forth_dict.c:1225-1244`). A word without `>R`
  and `R>` whose body has an answer aborts at its EXIT, and loses both stacks, exactly when it is
  started with an empty return stack (`Correctness.WordReturns`); a body with `>R` can leave a
  cell for EXIT to take as an address (`Correctness.BodyThenExit`).
* Free accepts an address behind any odd word of the heap and clears the low bit of that word
  (`forth_heap.c:75-86`): `Heap.Heap.Free`. A caller who stores an odd number in a payload cell
  has made such an address: `HeapRuns.OwnDataFreed`.
* The snapshot walker reads 16 bytes of every body (`forth_debug.c:146-148`) and so ends the
  process when the latest one begins closer than that to the end of the SPI-RAM:
  `Dictionary.WalkerCompletes`, with `Dictionary.WalkerCutShort` for a run that gets there.
* Requests above 0xFFFFFFF4 bytes wrap (`forth_heap.c:27-28`) and are answered with the first
  free block. From 0xFFFFFFF5 to 0xFFFFFFFC the block asked for is smaller than a header
  (`HeapBlocks.RequiredSizeExact`), and if the free block found is large enough to be split, the
  two headers written collide: no list in memory tiles the heap any more. The heap stays
  well-formed exactly when a request does not collide (`Heap.Heap.Allocate`), and so does every
  run (`HeapRuns.RunsKeepHeap`). Up to 0xFFFFFFF8 the block is linked to itself, and no later walk
  ends (`HeapMemory.SplitAtZeroLoops`).
* Names of 32 or 33 bytes are stored but read back wrong, because the reader masks the
  length with 0x1F (`forth_debug.c:132`): `Dictionary.ReadBackExactly`.
* Compiled text and names that do not fit before the end of the SPI-RAM are accepted without an
  abort, and the ring carries them on over the first heap header (`hardware.c:141-150`):
  `Strings.QuoteWithoutRoom`, `Dictionary.NameWithoutRoom`.
* The chunk pool does not notice a second free of a chunk, nor a free of a multiple of 4 inside
  one (`forth_chunk_pool.c:52-66`). A free keeps the pool exactly when the address is live or outside
  the pool: `ChunkPool.ReleaseKeepsExactly`.

## Readings of what the repository leaves open

* `hw_spi_ram_read32` is called but not defined; it is read as `hw_read32`.
* The lookup from a token to its handler (`get_public_handler_by_id`) is not defined; it is
  read as the inverse of the enumeration in `forth_dict.h`, so that 0 and everything behind the
  enumeration has no handler and aborts.
* `process_numeric_token` is not defined; numbers follow the number branch of
  `process_token` (`forth_dict.c:1473-1492`). The token loop is that of `forth_interpret_line`,
  which unlike `process_token` does not look at the abort flag.
* `XT_LIT`, `XT_BRANCH` and `XT_0BRANCH` are declared twice; the values are 1, 2, 3.
* `HEAP_MANAGED_SIZE` is the whole SPI-RAM although the dictionary starts in its middle; the
  heap size is a parameter, and no disjointness of heap and dictionary is claimed.
* A call of `exit` on a bus fault is a `Failure` result.
* Signed overflow in `*`, `+` and `-` (`forth_dict.c:149-151`) and the negation of the least
  `long long` (`forth_dict.c:1440`) are undefined in C, and `>>` of a negative value is
  implementation-defined. The model wraps on 32 bits and shifts arithmetically.
* The table entry of `."` has no handler (`forth_dict.c:43`) and nothing calls
  `forth_cmd_dot_quote`; the same code stands behind the table entry spelled `.\`
  (`forth_dict.c:48`). The round trip is about that code.

## Model

| member | source | states |
|---|---|---|
| Bus.WordIsFourBytes | hardware.c:63-96 | a 32-bit load or store is four byte accesses, least significant first, and reads back |
| Bus.RingStoreEffect | hardware.c:141-150 | a transfer of at most 1 MiB puts byte i at its ring position and keeps every other byte |
| Bus.RingRoundTrip | hardware.c:129-150 | reading back through the ring returns the bytes written, across the wrap |
| Bus.RingRoundTripExactly | hardware.c:129-150 | a transfer of any length reads back if and only if it ends before the address wraps to 0 and bytes whole rings apart agree |
| Bus.RingStoreFast | hardware.c:141-150 | a transfer inside the fast RAM does not wrap |
| Bus.Bus.constructor | hardware.c:9-21 | both memories start cleared |
| Bus.Bus.Read8 | hardware.c:38-47 | the byte at the address, or an access violation |
| Bus.Bus.Write8 | hardware.c:49-60 | exactly that byte changes, or nothing and a violation |
| Bus.Bus.Read32 | hardware.c:63-79 | alignment before range, then the little-endian cell |
| Bus.Bus.Write32 | hardware.c:81-96 | exactly four bytes of one memory change, or nothing and a fault |
| Bus.Bus.WriteBuf | hardware.c:141-150 | the byte loop leaves the memory of RingStore, or stops with its fault |
| Bus.Bus.ReadBuf | hardware.c:129-139 | the byte loop answers RingLoad, faults included |
| HeapBlocks.TakeKeepsInv | forth_heap.c:38-59 | marking or splitting a fitting block keeps the tiling, the separation of free blocks and the size of the last block |
| HeapBlocks.CoalesceFuses | forth_heap.c:92-128 | with the merge repaired coalescing keeps every live block, tiles the same range and leaves no two free neighbours |
| HeapBlocks.CoalesceKeepsLive | forth_heap.c:92-128 | with either merge coalescing keeps every live block and leaves no two free neighbours |
| HeapBlocks.CoalesceAsWritten | forth_heap.c:92-128 | with the merge as written coalescing tiles the same range if and only if there was nothing to merge |
| HeapBlocks.Canonical | forth_heap.c:92-128 | two such lists with the same live blocks are equal, so each run of free blocks is fused to one |
| HeapBlocks.TakeThenRelease | forth_heap.c:38-130 | with the merge repaired freeing the block just taken restores the list, split or not |
| HeapBlocks.TakeThenReleaseAsWritten | forth_heap.c:38-130 | with the merge as written it does if and only if the block was taken whole |
| HeapBlocks.ReleaseAsWritten | forth_heap.c:107-114 | with the extra 8 a free keeps the tiling if and only if neither neighbour is free |
| HeapBlocks.MergeAsWrittenBreaksTiling | forth_heap.c:107-114 | init, allocate 4, free ends with a free block of 1048584 bytes |
| HeapBlocks.RequiredSizeExact | forth_heap.c:26-28 | the two lines do not wrap if and only if size is at most 0xFFFFFFF4, and ask for less than a header exactly from there to 0xFFFFFFFC |
| HeapBlocks.TotalsCoverRange | forth_heap.c:133-155 | live and free bytes sum to the managed size |
| HeapMemory.RepresentsUnique | forth_heap.c:30-36 | memory determines the block list that the walk sees |
| HeapMemory.SplitWithoutRoom | forth_heap.c:40-51 | after a split at less than a header no list that memory holds tiles the heap |
| HeapMemory.SplitAtZeroLoops | forth_heap.c:40-51 | after a split at 0 bytes every walk stays on that block for good |
| HeapMemory.PayloadWriteKeepsHeap | forth_heap.c:57-58 | a caller's write inside a live payload touches no header |
| Heap.LiveIsAccepted | forth_heap.c:67-83 | every live payload passes the range and busy checks of free |
| Heap.FreeGuardFaults | forth_heap.c:69-77 | an address in range ends the process if and only if it is no multiple of 4 or one of the first 8 |
| Heap.Heap.constructor | forth_heap.c:15-23 | one free block that is the whole heap |
| Heap.Heap.Allocate | forth_heap.c:25-65 | for every size: the walk, the split and the mark do to memory what AllocateStep says, and the heap left is well-formed if and only if the request does not ask for less than a header from a block large enough to be split |
| Heap.Heap.TryMerge | forth_heap.c:95-124 | one look at a block: merged with a free neighbour, or nothing changed and there is none |
| Heap.Heap.CoalesceAll | forth_heap.c:92-128 | the loop that stays on a block after a merge ends and computes Coalesce, changing header bytes of free blocks only |
| Heap.Heap.ReleaseWord | forth_heap.c:85-130 | clearing the bit and coalescing is Release, and leaves a well-formed heap if and only if the merge is repaired or nothing merges; an odd word that is no header only loses its low bit |
| Heap.Heap.Free | forth_heap.c:67-131 | for every address: a live payload is accepted, an address behind any other odd word is accepted and clears the low bit of that word, anything refused changes nothing, and a second free of the same address is refused, even on a heap that a merge as written has spoilt |
| Heap.OddIsStray | forth_heap.c:76-83 | an odd word that does not stand before a live payload is no header |
| Heap.Heap.DumpStatus | forth_heap.c:133-157 | both totals and the count, and the totals sum to the managed size |
| Heap.Heap.ExportRows | forth_debug.c:49-57 | the exporter's walk lists exactly the blocks, and its reads never fault |
| HeapRuns.RunsKeepHeap | forth_heap.c:15-131 | over every run of allocate for any size, free of any address and payload writes, with the merge repaired, the blocks tile the heap, no two free ones are neighbours, and the totals are conserved, if and only if no request on the way collides |
| HeapRuns.RunsAsWritten | forth_heap.c:15-131 | a run with the merge as written keeps the heap well-formed if and only if no free finds a free neighbour and no request collides, and then it is a run with the merge repaired |
| HeapRuns.LiveDataSurvives | forth_heap.c:25-131 | a live block stays and its bytes keep their values until its owner frees or writes it, as long as no request collides |
| HeapRuns.FirstFitExact | forth_heap.c:25-65 | for every size: 0 if and only if no free block has the size asked for; otherwise the lowest that has, and unless the request collides what is handed out is disjoint from every live block, with room for the request exactly when that does not wrap |
| HeapRuns.OwnDataFreed | forth_heap.c:67-86 | an odd number stored in a payload cell makes the address 8 bytes on one that free accepts, and freeing it changes the number |
| HeapRuns.AllocateThenFree | forth_heap.c:25-131 | with the merge repaired free after an allocate that does not collide is the identity on the block list of any reachable heap |
| HeapRuns.AllocateThenFreeAsWritten | forth_heap.c:25-131 | as written such a pair is the identity if and only if the block found was handed out whole |
| Words.SignedIs | forth_dict.c:369-379 | a cell read as int32_t is the number of that range with the same 32 bits |
| Stacks.PrimMeaning | forth_dict.c:149-241 | each word replaces its inputs by its outputs and touches nothing else, or aborts exactly when an input or room is missing; signed arithmetic agrees with plain 32-bit arithmetic |
| Stacks.PrimAborted | forth_vm.c:50-127 | after an abort no word changes anything |
| Stacks.ArithmeticWords | forth_dict.c:149-241 | on operands a and b: `+`, `-` and `*` on 32 bits, and the three shifts for every count |
| Stacks.ComparisonWords | forth_dict.c:357-379 | `=`, `<>`, `<` and `>` leave all ones when the comparison holds, signed for the last two, and 0 otherwise |
| Stacks.UnaryWords | forth_dict.c:180-186 | INVERT turns over every bit, and `0=` (line 352) leaves all ones on 0 and 0 otherwise |
| Stacks.BitWords | forth_dict.c:153-178 | AND, OR and XOR bit by bit |
| Stacks.StackWords | forth_vm.c:98-127 | the words that move cells, on the two top cells, with the limit of 64 |
| Stacks.AbortClears | forth_vm.c:40-48 | whatever sets the flag leaves both stacks empty and the mode REPL |
| Stacks.ShiftsMeaning | forth_dict.c:188-241 | below 32 LSHIFT multiplies by a power of 2 on 32 bits, RSHIFT divides by it, ARSHIFT divides the value signed in the narrowest of 8, 16 or 32 bits, rounding down |
| Stacks.ArshiftAtTheEnd | forth_dict.c:209-241 | the answer changes between counts 31 and 32 exactly for values negative in 8 or 16 bits only |
| Threaded.TokensInvert | forth_dict.c:40-106 | the token compiled for a word runs that word, RSHIFT as written excepted |
| Threaded.TokensInOrder | forth_dict.h:15-107 | the tokens are the places of the words in the enumeration |
| Threaded.InterpretAppend | forth_dict.c:1540-1576 | interpreting a text piece by piece is interpreting the whole |
| Threaded.LoopWordsOutside | forth_dict.c:1070-1083 | BEGIN and UNTIL outside a definition abort and leave memory and frontier alone |
| Threaded.PatchWordsWithoutIf | forth_dict.c:1306-1329 | THEN and ELSE without an open IF write to address 0 and end the process |
| Threaded.UntilWithoutBegin | forth_dict.c:1079-1095 | UNTIL without an open loop aborts and still compiles a branch to address 0 |
| Threaded.InterpretClears | forth_vm.c:40-48 | a text that aborts leaves both stacks empty and the mode REPL |
| Threaded.AbortLatched | forth_dict.c:1198-1244 | the fetch loop never clears an abort, and touches the stacks afterwards only to clear them |
| Threaded.StepsClear | forth_dict.c:1225-1244 | so does a running word |
| Threaded.AbortCells | forth_dict.c:1198-1222 | a compiled ABORT, an empty cell and a cell behind the enumeration abort |
| Threaded.AbortedControl | forth_dict.c:832-861 | in an aborted word EXIT ends the loop and 0BRANCH always branches |
| Threaded.BranchOnNothing | forth_dict.c:847-861 | 0BRANCH on an empty stack aborts and branches |
| Threaded.ExecutionEnds | forth_dict.c:1234-1239 | the loop goes through the turns of an execution one by one and stays at its end, ip 0, whatever more fuel it has |
| Threaded.ExecutionOf | forth_dict.c:1234-1239 | a loop that has come to ip 0 has gone through such turns |
| Compiler.LineGoesOn | forth_dict.c:1540-1576 | after an abort the rest of the line is still interpreted: an IF in it compiles its two cells |
| Compiler.ThenPatches | forth_dict.c:1306-1312 | THEN changes one cell, the operand whose address IF or ELSE left, to the distance from it to the frontier |
| Compiler.UntilWrites | forth_dict.c:1079-1095 | UNTIL writes a branch whose operand leads to the cell of BEGIN |
| Compiler.QuoteWrites | forth_dict.c:608-621 | S" writes its token, the length and the text, and moves the frontier past the padding |
| Compiler.PatchCode | forth_dict.c:1306-1329 | patching a cell of code already written is writing the patched code |
| Compiler.WriteMeaning | forth_dict.c:1070-1329 | written code is in memory and no byte outside it changed |
| Compiler.CompileEmits | forth_dict.c:1070-1329 | interpreting the words of any nested program writes its code and leaves both stacks as they were |
| Nesting.CompileText | forth_dict.c:1070-1329 | the same from entry to exit: stacks restored, frontier advanced by the size of the code, only the new code written |
| Nesting.CompilesExactly | forth_dict.c:1070-1329 | with room for its code before the end of the SPI-RAM a well-nested text compiles if and only if its nesting fits the free stack cells |
| Simulation.MoreFuel | forth_dict.c:1070-1095 | an answer of the big-step meaning does not depend on the fuel |
| Simulation.Forward | forth_dict.c:1225-1244 | if the meaning is an answer, the fetch loop reaches the end of the code with it |
| Simulation.Backward | forth_dict.c:1225-1244 | a run that leaves the code without an abort passes its end with the meaning's answer |
| Simulation.FalseIfFaults | forth_dict.c:847-861 | as written a false flag at IF ends the process two turns later |
| Simulation.Otherwise | forth_dict.c:1198-1244 | if the meaning is an abort, a fault or no answer with the fuel given, the loop aborts, crashes or is still going after as many turns |
| Correctness.FetchLoopCorrect | forth_dict.c:837-861 | for every program the loop reaches the end of its code with c' if and only if the program means c' |
| Correctness.FetchLoopOutcomes | forth_dict.c:1198-1244 | a program that means an abort aborts, one that means a fault ends the process, and one without an answer for any fuel runs forever without either |
| Correctness.CompileThenRun | forth_dict.c:1070-1329 | compiling any well-nested text and running it computes its meaning; every branch operand is patched |
| Correctness.OperandsPatched | forth_dict.c:1297-1329 | every operand of IF and ELSE is target minus operand address, every operand of UNTIL leads to its BEGIN |
| Correctness.BodyThenExit | forth_dict.c:832-834 | after any body EXIT goes on at the last cell of the return stack the body leaves, or aborts when it leaves none |
| Correctness.ReturnStackKept | forth_dict.c:820-830 | a program without >R and R> leaves the return stack as it found it |
| Correctness.WordReturns | forth_dict.c:1198-1244 | a word without >R and R> whose body has an answer aborts at EXIT if and only if it was started with an empty return stack, and otherwise returns to its last cell |
| Correctness.WordEnds | forth_dict.c:1225-1244 | started with no return address, or with 0 for one, it has a whole execution from its first cell to ip 0: done with any fuel from there on, and without a fault |
| Correctness.ComparisonDecides | forth_dict.c:352-379 | compiled and run, a b and a comparison before IF x THEN takes x exactly when the comparison holds, and otherwise goes on behind THEN or, as written, ends the process |
| Correctness.AsWrittenExactly | forth_dict.c:847-861 | the meaning as written is the repaired meaning, with words read as their tokens run, if every IF on the way finds a true flag, and a fault otherwise |
| Correctness.LoopAsWritten | forth_dict.c:837-861 | the fetch loop as written reaches the end of the code with c' if and only if c' is the intended answer and no IF on the way meets a false flag |
| Correctness.FalseFlagCrashes | forth_dict.c:847-861 | a false flag at any IF on the way, however deep, ends the process |
| Compiler.AsCompiledSame | forth_dict.c:94 | without RSHIFT, or with its token repaired, reading words as their tokens run changes nothing |
| Modes.InterpretIsCompiledRun | forth_dict.c:1453-1491 | compiled and run, a straight-line text leaves the stacks and the abort flag that interpreting it leaves, each word read as the one its token runs |
| Modes.ModesAgree | forth_dict.c:1453-1491 | the two modes agree on every text once the token of RSHIFT is repaired, and as written if every RSHIFT met finds operands for which the direction does not matter |
| Modes.ModesAgreeWithoutRshift | forth_dict.c:1453-1491 | in particular on every text without RSHIFT |
| Modes.InterpretOrCompile | forth_dict.c:1453-1491 | one machine and one text: interpreting it leaves the stacks that compiling it and running the code written leaves |
| Modes.RshiftAgreesExactly | forth_dict.c:94 | after a n the two modes agree if and only if n is at least 32 or a divided and multiplied by 2 to the n come to the same on 32 bits |
| Modes.RshiftDiffers | forth_dict.c:94 | on 8 and 1 they do not: interpreting leaves 4, the compiled code 16 |
| Strings.ParseQuoted | forth_dict.c:583-606 | the loop over the line with its fixed buffer computes Parse |
| Strings.ParseUnits | forth_dict.c:583-606 | on any line: a backslash before a quote or a backslash gives that character, any other character itself, up to the closing quote, the end of the line or 255 characters |
| Strings.UnitsOf | forth_dict.c:583-606 | every text is such a sequence of units up to an unescaped quote or its end |
| Strings.ParseEscaped | forth_dict.c:583-606 | parsing an escaped text returns it and the rest of the line if and only if it has at most 255 characters |
| Strings.StringRoundTrip | forth_dict.c:561-629 | escaped, parsed, compiled and run, S" pushes the address and length of its own bytes, and the ip lands on the compiler's frontier |
| Strings.QuoteInRepl | forth_dict.c:621-628 | in the REPL the text lands in the last 256 bytes of the SPI-RAM and nowhere else, and its address and length are pushed, or the machine aborts for want of room |
| Strings.ReplStringRoundTrip | forth_dict.c:578-628 | an escaped literal read in the REPL leaves its own bytes at the address it pushes |
| Strings.QuoteWithoutRoom | forth_dict.c:608-621 | a text that does not fit before the end of the SPI-RAM is accepted without an abort, and its rest lands on the front of the SPI-RAM |
| Strings.DotQuoteRoundTrip | forth_dict.c:1112-1157 | what this compiles the primitive at lines 782-794 prints, landing on the frontier |
| Numbers.PrintBinary | forth_dict.c:279-285 | the loop over the bits prints exactly the low bits, highest first |
| Numbers.ParseLiteral | forth_dict.c:1406-1447 | every literal of the four forms, with or without a minus, is read as its value on 32 bits, saturated as strtoll does |
| Numbers.ParseSpelled | forth_dict.c:1406-1447 | the value of every accepted token, second sign and second prefix included |
| Numbers.ParseExactly | forth_dict.c:1406-1447 | a token is accepted if and only if it is an optional minus and prefix before something strtoll reads to its end |
| Numbers.TwiceAnnounced | forth_dict.c:1406-1447 | `--` before decimal digits and `$0x` before hexadecimal ones are accepted |
| Numbers.PrintedParses | forth_dict.c:243-277 | what `.`, U., H. and B. print is one token of at most 33 characters that reads back |
| Numbers.FormattedParses | forth_dict.c:287-348 | what Q. prints reads back as the masked cell, sign-extended in signed decimal, for every descriptor |
| NumberText.DigitValueExactly | forth_dict.c:1435-1435 | the digits below 16 are those of the two tables of upper and lower case |
| NumberText.SpellingParses | forth_dict.c:1406-1447 | every spelling of v in either case, behind each prefix and with or without a minus, is read as v on 32 bits, cut at 2 to the 63 |
| NumberText.SecondMinus | forth_dict.c:1406-1447 | behind two minus signs it is read as v again, and from 2 to the 63 on as 0 |
| NumberText.OtherRefused | forth_dict.c:1406-1447 | a token with any other character than digits, prefixes, signs and white space is refused |
| NumberText.OneMore | forth_dict.c:1406-1447 | which one character is accepted in front of decimal digits |
| NumberText.PrintedCharacters | forth_dict.c:243-277 | the characters of `.`, U., H. and B.: decimal without leading zeros and a minus exactly when negative, 0x and eight digits, % and 32 bits |
| NumberText.FormattedCharacters | forth_dict.c:287-348 | the characters of Q. by the low digit of the descriptor and the width its second digit asks for |
| Dictionary.ReadBackExactly | forth_dict.c:1247-1276 | the walker reads back the name and body of a definition if and only if the name has at most 31 bytes |
| Dictionary.WalkerAgrees | forth_debug.c:121-155 | over every run of definitions with names of any length, mixed with code, the chain holds exactly the words defined, latest first, and its links descend; each is shown with its own name and body if and only if its name has at most 31 bytes |
| Dictionary.NameWithoutRoom | forth_dict.c:1247-1276 | a name that does not fit before the end of the SPI-RAM goes on at its front |
| Dictionary.WalkDictionary | forth_debug.c:121-155 | the walker's loop ends and lists the chain with 16 bytes of each body, or ends the process on the first body that has not that many |
| Dictionary.WalkerCompletes | forth_debug.c:145-150 | the listing is complete if and only if the body of the latest word has its 16 bytes inside the SPI-RAM |
| Dictionary.WalkerCutShort | forth_debug.c:145-150 | a first word with a short name in the last 12 bytes is defined, and the walker ends the process on it |
| ChunkPool.PoolConserved | forth_chunk_pool.c:10-59 | over every run the list in memory is acyclic, without duplicates, the complement of the live set, and its length and the counter sum to 20, if and only if every free is of a live chunk or of an address outside the pool |
| ChunkPool.AllocKeepsInv | forth_chunk_pool.c:32-50 | allocation takes the head of the list, or nothing when all twenty chunks are live |
| ChunkPool.ReleaseKeepsExactly | forth_chunk_pool.c:52-66 | a free that the bus lets through leaves some list that is the complement of some live set if and only if the address is live or outside the pool |
| ChunkPool.ReleaseThenAlloc | forth_chunk_pool.c:32-66 | the chunk just freed is allocated next, cleared, and the list is as before |
| ChunkPool.Chunks.constructor | forth_chunk_pool.c:10-26 | the init loop links all chunks in ascending order |
| ChunkPool.Chunks.AllocChunk | forth_chunk_pool.c:32-50 | for every head: reading the link and clearing eight words over the bus, faults included; from a chunk it is the pool of Alloc and its address |
| ChunkPool.Chunks.FreeChunk | forth_chunk_pool.c:52-66 | for every address: outside the pool nothing changes, a multiple of 4 inside is linked in as Release does, anything else ends the process |
| ChunkPool.Chunks.IsFree | forth_debug.c:34-37 | the exporter's walk ends and finds a chunk if and only if it is not live |
| CellPool.CellAddrRoundTrip | forth_cell_pool.c:42-68 | aligned addresses of the pool and cell indices correspond one to one |
| CellPool.BitPosition | forth_cell_pool.c:65-68 | cell indices and positions of bits correspond one to one |
| CellPool.TakenIsBit | forth_cell_pool.c:28-45 | cell i is bit i of the bitmap, the lowest bit of each byte first |
| CellPool.AllocExact | forth_cell_pool.c:24-56 | the lowest free cell, cleared, or 0 if and only if the counter stands at 256 |
| CellPool.FreeExact | forth_cell_pool.c:58-83 | a taken cell is given back, a free one or a foreign address changes nothing, and the guard of the decrement never decides |
| CellPool.AllocThenFree | forth_cell_pool.c:24-83 | free after allocate restores bitmap and counter; a second free changes nothing |
| CellPool.CounterCounts | forth_cell_pool.c:13-83 | over every run the counter is the number of set bits |
| CellPool.Cells.constructor | forth_cell_pool.c:13-21 | the init loop clears the bitmap |
| CellPool.Cells.FastCell | forth_cell_pool.c:24-56 | the two nested scan loops find what Alloc says |
| CellPool.Cells.FastCellFree | forth_cell_pool.c:58-83 | clearing bit and word in place leaves the pool of Free, with its fault for an address inside a cell |
| VirtualMachine.Vm.constructor | forth_vm.c:24-38 | empty stacks, REPL mode, the given frontier |
| VirtualMachine.Vm.AbortWithContext | forth_vm.c:40-48 | empties both stacks, sets the flag, falls back to REPL |
| VirtualMachine.Vm.Push | forth_vm.c:50-60 | the cell on top, an abort when full, nothing after an abort |
| VirtualMachine.Vm.Pop | forth_vm.c:62-72 | the top cell, an abort and 0 when empty |
| VirtualMachine.Vm.RPush | forth_vm.c:74-84 | the cell on top of the return stack, an abort when it is full, nothing after an abort |
| VirtualMachine.Vm.RPop | forth_vm.c:86-96 | the top cell of the return stack, an abort and 0 when it is empty |
| VirtualMachine.Vm.SwapWord | forth_vm.c:109-118 | the two top cells exchanged, all others kept |
| VirtualMachine.Vm.Execute | forth_dict.c:149-241 | every stack and arithmetic word, popping and pushing in place, leaves the stacks that ApplyPrim (and so PrimMeaning) says |
| VirtualMachine.Vm.UntilWord | forth_dict.c:1079-1095 | popping the target and writing two cells in place changes machine and memory as Until does, or ends with the same fault |
| VirtualMachine.Vm.IfWord | forth_dict.c:1297-1304 | two cells written in place, the operand address on the return stack: the machine of If, or the same fault |
| VirtualMachine.Vm.ElseWord | forth_dict.c:1314-1329 | two cells written and the operand of IF patched in place, the new operand on the return stack: the machine of Else, or the same fault |
| VirtualMachine.Vm.ThenWord | forth_dict.c:1306-1312 | the open operand patched in place: the machine of Then, or the same fault |
| VirtualMachine.Vm.QuoteWord | forth_dict.c:608-628 | token, length and text written in place while compiling, the text buffered and pushed in the REPL: the machine of Quote, or the same fault |
| VirtualMachine.Vm.SQuote | forth_dict.c:578-629 | parser and word together: the machine of Quote on the parsed text, and the position behind the literal |
| VirtualMachine.Vm.InterpretTokens | forth_dict.c:1540-1576 | the token loop over the machine in place ends in the machine of Interpret, or with its fault |
| VirtualMachine.Vm.ExecuteToken | forth_dict.c:1198-1222 | one token changes core and ip in place as Dispatch does, aborts when it has no handler, or faults as Dispatch does; memory is untouched |
| VirtualMachine.Vm.ExecuteCompiled | forth_dict.c:1225-1244 | with fuel for all turns of a whole execution the loop is done with its last stacks and restores mode and ip, with less it stands where the execution does, and otherwise it ends where Steps ends |
| VirtualMachine.Vm.DictAddWord | forth_dict.c:1247-1276 | header, link and new frontier in place, for names of any length: the machine of AddWord, or its fault |

## Left out

- VirtualMachine.Vm.ExecuteCompiled: takes a bound on the number of turns, because the loop of the source need not end; the theorems about runs hold for every bound.
- VirtualMachine.Vm.ExecuteToken: tokens of words the model does not cover, such as `@` and EMIT, are reported as such instead of run.
- VirtualMachine.Vm.InterpretTokens: takes the words of a line already recognised, because neither the token splitter nor a working table search is in the repository.
- Modes.ModesAgree: covers numbers and non-immediate stack and arithmetic words; texts with strings or control words mean different things in the two modes.
- ChunkPool.PoolConserved: covers writes of callers inside live chunks; what a stray write to a free chunk does to the list is not followed.
- Behaviour after an abort inside a running word: the loop does not look at the flag and may spin; beyond the latch and the stacks nothing is claimed about it.
- The memory words (`@`, `!`, `C@`, `C!`), EMIT, CR, TYPE and COUNT inside compiled programs: a program of the model does not change memory while it runs.
- AGAIN, which pops the wrong stack and overwrites its own token (`forth_dict.c:1097-1110`).
- `:` and `;` as switches of the mode, and user words called from user words: the dictionary search is disabled in the source.
- CONSTANT, VARIABLE, VALUE, TO, CHAR and the words behind them: they rest on functions that are not in the repository.
- `find_builtin` on the actual table, which is not sorted, so that its binary search may miss words; words arrive already recognised.
- The splitting of a line into tokens (`extract_next_token` is not in the repository).
- Both fixed pools at once: the last eight cells of the cell pool lie inside the first chunk, so each pool is modelled with the fast RAM to itself.
- 16-bit bus accesses, which no modelled code uses.
- Files, INCLUDED, the read-eval-print loop of `main.c`, diagnostics and the text of the exported tables.
- Freeing and exhausting host memory, threads and `volatile`.
