# Proofs about an AFL++ fork and its Python harness

This project models five parts of the repository in Dafny and proves what they do for all inputs, all
random streams and all interleavings.  `dafny verify dfyconfig.toml` checks everything.

**The havoc mutator** (`Havoc*.dfy`, with `Rng.dfy`, `Bits.dfy`, `Decimal.dfy`).  `afl_mutate` edits a
byte buffer in place, through a scratch buffer, under the control of random words.  The words are a
finite tape, which a draw shortens; a retry is one more read of the tape, and a tape that runs out gives
None.  `HavocPlan` decides what one step does, in the order in which the code draws; `HavocMemory` does
it in place with `memcpy`, `memmove` and `memset`; `HavocMutator` proves that the whole call leaves a
fold of pure sequence edits, each inside the buffer, with the length between 1 and the limit.
`HavocShuffle`, `HavocNumber`, `HavocWords` and `HavocLaws` say what single kinds mean: one cycle for
the shuffle, exact 64-bit arithmetic for the ASCII numbers, byte orders for the words; `HavocBlocks`
says where inserted bytes come from.  `HavocDraws` says which block lengths can be drawn, and how
evenly.  `HavocKinds`, `HavocBlockKinds` and `HavocReach` give each of the 37 kinds a law that does not
mention the plans and is exact: a kind can turn one buffer into another when and only when its law
relates them.  `HavocSteps` says what a step and a run of steps are in terms of tries, `HavocReads` that
they look at no word they do not use up, and `HavocRuns` what whole calls can do: `afl_mutate` can turn
one buffer into another in n steps exactly when n laws of kinds in the table lead there. Dictionary
tokens have at most MAX_DICT_FILE bytes, as src/afl-fuzz-extras.c:591 ensures, and the caller's buffer
has room for the length limit.

**The corpus minimiser** (`Cmin*.dfy`).  Dispatcher, workers and main process are a step system in which
any enabled step may come next.  An invariant of every step leads to: no run gets stuck, every file is
processed once by one worker, the merged tables are the same for every schedule, every recorded position
reads its trace back, and the two selection phases keep full coverage without saving a file twice.  A
worker packs the trace of a file exactly when one of its tuples is in no earlier file of the worker with
the same or a smaller number (`CminWorkerExact`), and the list of tuples decides every file that is
saved.

**The multipart seeds** (`ByteStrings.dfy`, `Multipart*.dfy`).  The client's printer, the harness's
parser and the mutator's three arms, over split, join and find on byte strings.  `MultipartGrammar`
says, in terms of lines, items and characters, which seeds the parser accepts and with which result,
`Utf8` what a text value is.  The round trip is characterised for every form, every legal path and every
printable boundary without quotes and semicolons: it holds exactly for the legal forms.  The arms are
characterised for every accepted seed of which the mutator reads the boundary that the parser reads and
whose result is not truncated: arm 0 gives the file one more byte exactly when it chose the file part
and no delimiter starts too early, arm 1 keeps the meaning exactly when the first literal `boundary=B`
is the parameter that the parser reads, arm 2 adds its field exactly when there is no description yet
and line breaks are not mixed.  `MultipartAgreeExact` says when the two boundaries are the same, for
every accepted header block; `MultipartTruncated` says what a cut within the closing line does, `MultipartUnread`
which seeds come back unchanged, and `MultipartText` what is printed, as text.

**Allocation** (`Bits.dfy`, `Alloc.dfy`, `Prealloc.dfy`).  The growing buffer against an unbounded
memory of zeros, the rounding to a power of two, and the pool whose counter agrees with its slots.

**Execution ids** (`ExecSeq*.dfy`, `Utf8.dfy`).  Processes sharing a locked counter file, one system
call at a time; `ExecSeqCount` says which number a counter file holds.

Bytes are `Byte` numbers, except in the multipart part, where a byte string is a Dafny `string` of
characters below 256 and a Python `str` value stands for its UTF-8 bytes.  Sizes and lengths are natural
numbers; 32-bit and 64-bit wrap-around is written out where the code relies on it.

## Where the code does less than it says

- `MUT_ARITH32BE` (include/afl-mutations.h:2062-2072) swaps the bytes of the sum twice and adds to the
  little-endian dword.  Its comment comes true only for adding 1 to four bytes 0xff
  (`HavocWords.BigEndianPromise`).
- The sums in the length guards of the havoc stage wrap around at 2^32.  They hold the limit exactly for
  `max_len + HAVOC_BLK_XL < 2^32` (`HavocLaws.SafeLimitIff`).
- `next_pow2` (include/alloc-inl.h:606-625) has no shift by 32.  Its result is what the comment promises,
  the least power of two that is large enough or 0 on overflow, exactly when the number below the argument
  has no 32 zero bits in a row (`Bits.NextPow2Exactly`, `Bits.GapExample`); it is 0 or large enough always,
  which is what `afl_realloc` needs.
- `afl_realloc` does not return NULL for a null buffer and a size below 1, as include/alloc-inl.h:662 says:
  it allocates (`Alloc.GrowsTwofold`).  It covers the request exactly when the size with its header does
  not wrap (`Alloc.ReservedCovers`).
- `rand_below` says that it may have a slight bias (include/afl-fuzz.h:1653-1654).  It has none
  (`Rng.Unbiased`).
- `_mutate_multipart` says that it mutates filedata (nv_json_mutator.py:175).  Arm 0 changes a text field
  when one looks like the file to it, such as one named `filedata`, and leaves the file as it is
  (`MultipartFiledata.FieldMutated`).  It appends one byte to the file bytes exactly when the part it chose
  carries a file name and no delimiter starts too early (`MultipartAppendExact.FileAppendExactly`).
- It also says that it preserves the envelope.  Arm 0 makes a seed unparsable when the new byte lets a
  delimiter start inside the file part: the boundary `A--A` after a part that ends in `--` without a line
  break becomes readable one character early, although the longer content holds no delimiter
  (`MultipartAppendExact.AppendExactly`, `MultipartWitness.StraddleExample`).
  Arm 1 makes a seed unparsable whose boundary is in quotes (`MultipartWitness.QuotedRefused`), or in
  which the literal `boundary=B` stands earlier in the header block
  (`MultipartRedelimitExact.RedelimitExactly`).  Arm 2 makes a seed unparsable whose header block ends in
  LF LF while its body holds a CRLF (`MultipartWitness.MixedExample`) or that has a `description` already.
- `_mutate_multipart` looks for the boundary in the rest of the Content-Type line, the parser in its
  parameters.  They read the same one only when no other parameter follows, the line starts with
  `Content-Type:`, no space stands before the equals sign, and the value has no edge that only text takes
  for white space (`MultipartAgreeExact.BoundaryAgreesExactly`).
- `next_exec_seq` reads 64 bytes.  The ids are consecutive exactly while the counter stays within 10^64
  (`ExecSeqProtocol.EveryRun`).

## Model

| member | source | states |
|---|---|---|
| HavocMutator.Mutator.AflMutate | include/afl-mutations.h:1801-2735 | the in-place call leaves the buffer, the length and the random stream that the fold of pure edits leaves; there is a run of settled steps that leads there, or none at all when the tape ran out; on an empty buffer or a refused scratch buffer it returns 0 and changes nothing |
| HavocSteps.StepExactly | include/afl-mutations.h:1863-1869 | a step takes the operation of the first try that does not ask for another kind, each try drawing a kind from the table and letting it decide on the tape that the try before left; it has no result exactly when such a chain of tries runs dry |
| HavocSteps.MutatedExactly | include/afl-mutations.h:1863-2733 | the result, the rest of the tape and the edits of a call are those of a run in which every step settles so, and there is no result exactly when there is no such run |
| HavocReads.CallReads | include/afl-mutations.h:1863-2735 | a call looks at the random words it uses up and at none behind them: with any others behind them it leaves the same buffer by the same edits, and those words |
| HavocReads.KindReads | include/afl-mutations.h:1869-2727 | the same for the decision of each of the 37 kinds, a jump back for another kind included |
| HavocRuns.CallsExactly | include/afl-mutations.h:1801-2735 | for all buffers and step counts: some random words make the call turn one buffer into the other exactly when that many laws of kinds in the table lead from one to the other |
| HavocRuns.OneKindExactly | include/afl-mutations.h:1863-2733 | with one kind alone in the table, one step does exactly what the law of that kind allows |
| HavocRuns.OneByteStep | include/afl-mutations.h:1871-2231 | with a byte kind alone in the table, every step that ends has changed one byte, in the way of the kind |
| HavocReach.KindExactly | include/afl-mutations.h:1869-2727 | for each of the 37 kinds: some words make it turn one buffer into the other exactly when its law says so, the law naming place, length and contents of the change without the plans |
| HavocReach.KindObeys | include/afl-mutations.h:1869-2727 | whatever is drawn, a kind that goes ahead obeys its law |
| HavocReach.KindReached | include/afl-mutations.h:1869-2727 | every place, length and content that the law of a kind allows is drawn by some words, whatever words follow |
| HavocMutator.MutatedIsEdits | include/afl-mutations.h:1863-2733 | for every buffer, step count and tape the result is one legal edit per step, each inside the buffer it finds, the length staying between 1 and the limit |
| HavocMutator.Step | include/afl-mutations.h:1865-2729 | one step with its retries: the buffer afterwards is the edit chosen by the first kind that does not ask for another |
| HavocMutator.Execute | include/afl-mutations.h:2089-2727 | every memory operation, done in place, is its sequence edit |
| HavocMutator.ScanNumber | include/afl-mutations.h:2377-2440 | the scanning and adding loops compute the number that the search specification names |
| HavocMutator.ScanForDigit | include/afl-mutations.h:2377-2410 | the two scans find the first digit from the start place on, else the first one before it |
| HavocMutator.ReadDigits | include/afl-mutations.h:2412-2437 | the digit loop and the guarded sum give the value and the place where 64 bits are full |
| HavocPlan.OpIsLegal | include/afl-mutations.h:2089-2727 | an operation that is in order is an edit that fits and keeps the length between 1 and the limit |
| HavocPlan.Plan | include/afl-mutations.h:1869-2727 | whatever is drawn, the decision of each of the 37 kinds stays inside the buffer, the splice buffer and the length limit, and uses up no more than the tape |
| HavocPlan.StepOf | include/afl-mutations.h:1863-1869 | a step that finds its words picks an operation that is in order and uses at least one word |
| HavocPlan.ChooseBlockLen | include/afl-mutations.h:1760-1799 | the block length is never zero and never above the limit, except that it is 1 for the limit 0 |
| HavocDraws.LengthDrawn | include/afl-mutations.h:1760-1799 | in a class of lengths that is available, which a given first word selects, a word draws the least length plus its remainder by the number of lengths, if it is accepted |
| HavocDraws.LengthsExactly | include/afl-mutations.h:1760-1799 | a length can be drawn exactly when it lies in an available class (1-32; after ten minutes one more of 32-128, 128-1500 and 1500-32768 with each queue cycle), cut at the limit |
| HavocDraws.LengthsEven | include/afl-mutations.h:1792-1797 | behind the words that select the class, each of its lengths is drawn from equally many words |
| HavocDraws.EarlyLengths | include/afl-mutations.h:1766-1797 | before ten minutes the word n - 1 draws the length n, for each n from 1 to 32 within the limit |
| HavocPlan.DrawOther | include/afl-mutations.h:2244-2248 | the draw-again loop gives a place below the limit other than the one excluded |
| HavocPlan.DrawPartners | include/afl-mutations.h:2302-2310 | the shuffle draws for each place a partner strictly before it |
| HavocPlan.PlanSwitch | include/afl-mutations.h:2233-2275 | the two blocks that trade places are inside the buffer and do not overlap |
| HavocPlan.PlanNumber | include/afl-mutations.h:2442-2550 | a printed number never takes the buffer beyond its limit or leaves it empty |
| HavocPlan.PlanSpliceOverwrite | include/afl-mutations.h:2675-2693 | the overwrite stays inside both buffers, also for a splice buffer of one byte |
| HavocLaws.SafeLimitIff | include/afl-mutations.h:2089-2723 | the 32-bit guards hold the length limit exactly when limit plus largest block stays below 2^32 |
| HavocLaws.FullBufferGrows | include/afl-mutations.h:2091-2112 | a full buffer near 2^32 grows beyond its limit, the guard having wrapped |
| HavocLaws.OneByteChanges | include/afl-mutations.h:1871-2231 | the byte kinds change exactly one byte, to another value, and in the way of the kind: one bit turned over, all bits turned over, 1 to 35 added or taken away modulo 256 |
| HavocLaws.Arith16Adds | include/afl-mutations.h:1964-2018 | one 16-bit word, in the byte order of the kind, moves by 1 to 35 modulo 2^16; the rest stays |
| HavocLaws.Arith32Adds | include/afl-mutations.h:2020-2074 | one dword moves by 1 to 35 modulo 2^32, MUT_ARITH32BE acting on the little-endian one, with the exact case in which it acts big-endian |
| HavocLaws.InterestingStored | include/afl-mutations.h:1892-1942 | the interesting value drawn reads back in the byte order of the kind, and no byte outside the word changes |
| HavocLaws.ShuffleCycles | include/afl-mutations.h:2295-2321 | the bytes of one block move along a single cycle through the block, none keeps its place in a block of two or more, all others stay |
| HavocLaws.SwitchTrades | include/afl-mutations.h:2233-2275 | two non-empty blocks that do not overlap trade places, everything else stays, and the bytes are the same as a multiset |
| HavocLaws.AsciiNumReplaces | include/afl-mutations.h:2371-2550 | a non-empty span of digits, the longest that 64 bits hold or one shorter, makes way for the decimal notation of the strategy's exact result for the value of the span |
| HavocLaws.AsciiNumNeedsDigit | include/afl-mutations.h:2373-2414 | without a digit it leaves the buffer alone, wherever the scan starts |
| HavocLaws.AsciiNumEdits | include/afl-mutations.h:2373-2550 | with a digit it edits, exactly unless the buffer with the new number in it would be above the limit |
| HavocBlocks.InsertionsKeep | include/afl-mutations.h:2089-2723 | each inserting kind puts in a block of its source (a piece of the buffer, a token, a piece of the splice buffer, or a byte that is the drawn one or the one before the block), not empty but for tokens, and taking it out gives the old buffer back |
| HavocBlocks.OverwritesInside | include/afl-mutations.h:2169-2693 | each overwriting kind puts a block of its source, not empty but for tokens, over old bytes and changes nothing else |
| HavocBlocks.DeletionsKeep | include/afl-mutations.h:2277-2340 | a deletion takes out one block of at least one byte, never all, and exactly one byte for MUT_DELONE |
| HavocLaws.InsertAsciiNumWrites | include/afl-mutations.h:2552-2593 | one to eight bytes are overwritten with the last digits of a random 64-bit number, everything else stays |
| HavocNumber.FindNumber | include/afl-mutations.h:2375-2410 | None exactly when there is no digit, else the first digit in cyclic order from the start place |
| HavocNumber.ReadNumberIs | include/afl-mutations.h:2412-2440 | the value is that of the digits in the span with the sign before them, and the span cannot be longer |
| HavocNumber.AdjustedIs | include/afl-mutations.h:2444-2524 | giving up the last digit leaves a digit at least, and the adjusted value is the value of what is left |
| HavocNumber.ChangedFits | include/afl-mutations.h:2444-2524 | no strategy overflows a signed 64-bit number |
| HavocNumber.Printed | include/afl-mutations.h:2526-2530 | the printed number has at most 20 characters and reads back |
| HavocShuffle.ShuffledIs | include/afl-mutations.h:2302-2319 | the loop moves each byte from its origin and nothing else |
| HavocShuffle.ShuffleIsOneCycle | include/afl-mutations.h:2302-2319 | the origins form one cycle through the whole block |
| HavocShuffle.NoFixedPlace | include/afl-mutations.h:2302-2319 | in a block of two or more no place is its own origin |
| HavocShuffle.DrawsMatter | include/afl-mutations.h:2302-2310 | different draws give different cycles |
| HavocShuffle.EveryCycleIsDrawn | include/afl-mutations.h:2302-2310 | every cycle comes from some draws |
| HavocMemory.DoShuffle | include/afl-mutations.h:2302-2319 | the in-place countdown loop permutes the block by the cycle of its draws |
| HavocMemory.DoSwitch | include/afl-mutations.h:2263-2271 | three copies through the scratch buffer trade the two blocks |
| HavocMemory.DoCloneBlock | include/afl-mutations.h:2098-2112 | head, block and tail through the scratch buffer insert a copy of the block |
| HavocMemory.DoCloneByte | include/afl-mutations.h:2140-2154 | the same for a block of one byte value |
| HavocMemory.DoReplace | include/afl-mutations.h:2537-2547 | the span makes way for the new digits, or for nothing and a splice comes in |
| HavocMemory.DoMoveBlock | include/afl-mutations.h:2180-2184 | an overlapping move writes the old block |
| HavocMemory.DoCut | include/afl-mutations.h:2284-2291 | the tail moves down over the deleted block |
| HavocMemory.DoPushIn | include/afl-mutations.h:2623-2631 | the tail moves up and the token goes in between |
| HavocMemory.MemMove | include/afl-mutations.h:2180-2184 | the blocks may overlap in either direction |
| HavocWords.ReadBack16 | include/types.h:107-196 | a stored word reads back, in either byte order |
| HavocWords.ReadBack32 | include/types.h:115-211 | a stored dword reads back, in either byte order |
| HavocWords.SwapTurns | include/types.h:107-122 | swapping turns one byte order into the other and is its own inverse |
| HavocWords.ArithLaws16 | include/afl-mutations.h:1964-2018 | the plain form adds to the little-endian word, the swapped form to the big-endian one |
| HavocWords.ArithLaws32 | include/afl-mutations.h:2020-2060 | the same for dwords |
| HavocWords.Arith32BEIsLittle | include/afl-mutations.h:2062-2074 | the two swaps cancel |
| HavocWords.BigEndianPromise | include/afl-mutations.h:2062-2074 | the comment's promise holds exactly for adding 1 to four bytes 0xff |
| HavocWords.XorUndoes | include/afl-mutations.h:2076-2087 | the same mask twice restores the byte, and only the mask 0 changes nothing |
| Rng.RandBelow | include/afl-fuzz.h:1656-1683 | the rejection loop returns the residue of the first accepted word |
| Rng.FirstAccepted | include/afl-fuzz.h:1675-1681 | the draw uses the first accepted word and runs dry exactly when none is accepted |
| Rng.Unbiased | include/afl-fuzz.h:1671-1681 | every value below the limit has equally many accepted words, and at most limit words are rejected |
| Bits.NextPow2Steps | include/alloc-inl.h:606-625 | the five shift steps compute the smear |
| Bits.NextPow2IsLeast | include/alloc-inl.h:606-625 | from 1 to 2^32 the result is the least power of two that is large enough |
| Bits.NextPow2Otherwise | include/alloc-inl.h:606-625 | for every 64-bit size the result is 0 or large enough, and 0 for 0 |
| Bits.NextPow2Exactly | include/alloc-inl.h:606-625 | for every size from 2 on the result is what the comment promises, the least power of two or 0 on overflow, exactly when the number below the size has no gap of 32 zero bits |
| Bits.GapExample | include/alloc-inl.h:606-625 | 2^32 + 1 is rounded to something that is no power of two |
| Bits.NextP2 | include/afl-fuzz.h:1724-1735 | the loop gives the least power of two, without overflow, and agrees with the smear from 1 to 2^32 |
| Bits.SmearFills | include/alloc-inl.h:617-622 | the smear sets all bits below the top one exactly without a gap |
| Alloc.Buffer.Reserve | include/alloc-inl.h:663-716 | the in-place call leaves the block that the specification gives, old contents first and zeros behind, or null when refused |
| Alloc.ReservedCovers | include/alloc-inl.h:663-716 | a granted request is covered exactly when the size with its header does not wrap; capacity never shrinks, contents survive, the new tail is zero; only a null buffer whose size with its header wraps to 0 stays null |
| Alloc.RefusedExactly | include/alloc-inl.h:662-716 | when the system refuses, the buffer is lost exactly when it had to grow; a request that it has room for leaves it alone, whatever the system would answer |
| Alloc.RunIsMemory | include/alloc-inl.h:663-716 | over a run of requests and writes the buffer is an unbounded zero memory cut at a capacity that covers every request and is below twice what was asked, and all growths carried over fewer bytes than the final size |
| Alloc.GrowsTwofold | include/alloc-inl.h:681-698 | a growth at least doubles the complete size, which stays a power of two |
| Prealloc.Pool.PreAlloc | include/afl-prealloc.h:58-88 | the scan takes the first unused slot, or malloc once the counter has reached the size |
| Prealloc.Pool.PreAllocForce | include/afl-prealloc.h:92-103 | a slot in use is refused, an unused one taken and counted |
| Prealloc.Pool.PreFree | include/afl-prealloc.h:107-140 | the element is released by where it came from, a free one is a double free |
| Prealloc.AllocKeeps | include/afl-prealloc.h:58-88 | an element handed out was held by nobody, comes from malloc exactly when all slots are held, and only a refused malloc fails |
| Prealloc.ForceKeeps | include/afl-prealloc.h:92-103 | the slot is refused exactly when somebody holds it |
| Prealloc.FreeKeeps | include/afl-prealloc.h:107-140 | freeing succeeds exactly on held elements; the inconsistency check never fires |
| Prealloc.PoolInvariant | include/afl-prealloc.h:58-140 | after every run the counter is the number of held slots and no element is held twice |
| Prealloc.CountUsed | include/afl-prealloc.h:60-72 | the counter is below the size exactly when the scan will find a slot |
| ExecSeq.ReadBack | nv_http_harness.py:422-436 | a written count is read back exactly when it has at most 64 digits, else its first 64 digits are |
| ExecSeqCount.CountExactly | nv_http_harness.py:422-431 | for every file content: the count is the number that the first 64 bytes spell once stray bytes are dropped (white space around it, a sign or none, groups of digits with single underscores between them), and 0 exactly when they spell none or one that is not above 0 |
| ExecSeqCount.CharacterKept | nv_http_harness.py:422 | decoding keeps a character at the front |
| ExecSeqCount.ByteDropped | nv_http_harness.py:422 | decoding drops a byte with which no character starts |
| ExecSeq.BadByteSkipped | nv_http_harness.py:422 | a byte that begins no character is ignored before the digits |
| ExecSeq.Restart | nv_http_harness.py:422-433 | after 10^64 the count starts again from 10^63 |
| ExecSeq.CountBound | nv_http_harness.py:422-431 | whatever the file holds, the count read is below 10^64 |
| ExecSeq.Sidecar.NextExecSeq | nv_http_harness.py:394-453 | one uninterrupted call returns the count plus one and leaves it in the file, or 0 and leaves the file alone |
| ExecSeqProtocol.EveryRun | nv_http_harness.py:394-453 | in every interleaving at most one process is inside, each id belongs to one process, and ids are consecutive in lock order exactly while the counter stays within 10^64 |
| ExecSeqProtocol.IdsDistinct | nv_http_harness.py:405-408 | two processes never end up with the same positive id within that range |
| ExecSeqProtocol.KeepRead | nv_http_harness.py:420-433 | handing out an id keeps the invariant |
| ExecSeqProtocol.KeepOther | nv_http_harness.py:414-453 | every other step, failures included, keeps the invariant |
| Decimal.DigitsRead | nv_http_harness.py:424-436 | decimal notation reads back |
| Decimal.DigitsPrefix | nv_http_harness.py:422 | cutting digits off the end divides by a power of ten |
| CminProtocol.Batched | afl-cmin.py:41-58 | the generator's batches, as a list |
| CminRuns.BatchesCover | afl-cmin.py:41-58 | the batches hand out every file once, in order; none is empty, and all but the last have the chunk's length |
| CminRuns.ChunkIsLargest | afl-cmin.py:794 | the chunk is the largest number of files, of 1 to 128, for which every worker could have one, and 1 when there are too few |
| CminProtocolLaws.KeepInv | afl-cmin.py:506-587 | every step of every process keeps the protocol's invariant |
| CminRuns.RunInvariant | afl-cmin.py:794-822 | for every number of workers and every interleaving the invariant holds, and a run can go no further exactly when main has received one progress message per file and one result per worker |
| CminRuns.NotStuck | afl-cmin.py:794-822 | until then some process can go on |
| CminRuns.RunLength | afl-cmin.py:794-822 | all complete runs take equally many steps: each job put and taken once, each file processed and received once, each result received once |
| CminRuns.CompleteIsEmpty | afl-cmin.py:550-587 | in a complete state every worker has taken its sentinel and has nothing pending, all jobs are dispatched, and the job, progress and result queues are empty |
| CminResult.FileOnce | afl-cmin.py:506-587 | every file has been processed once, by one worker |
| CminWorker.Worker.ProcessFile | afl-cmin.py:553-585 | one file changes table, counter, crashes and pack, and leads to one message, as specified |
| CminWorker.Worker.Lower | afl-cmin.py:568-577 | the inner loop lowers the table for the tuples of the trace and reports whether it did |
| CminWorker.SetUpIsValid | afl-cmin.py:462-477 | with the detected widths every tuple number and every file number fits its table |
| CminWorkerLaws.BestTable | afl-cmin.py:541-577 | a worker's table holds, for each tuple, the least of its files with that tuple |
| CminWorkerLaws.CounterTable | afl-cmin.py:560 | a worker's counter counts the occurrences in its files |
| CminWorkerLaws.PackReadsBack | afl-cmin.py:579-585 | every position a worker reports reads its trace back from the final pack |
| CminWorkerLaws.FirstIsSaved | afl-cmin.py:573-582 | a file smaller than all earlier ones with one of its tuples has its trace packed |
| CminWorkerExact.WorkerExactly | afl-cmin.py:541-587 | a worker's messages and pack: file j is reported with a position exactly when one of its tuples has no earlier file of the worker with a number at most its own, the pack is the encoded traces of those files one after the other, and the crashes are the files without a trace |
| CminWorkerExact.RepeatedNotFresh | afl-cmin.py:568-585 | a file whose tuples all stand in one earlier file with a number at most its own is not packed again |
| CminWorkerExact.FreshNeedsTuple | afl-cmin.py:568-585 | a file without a trace is never packed, the first file with one always |
| CminSaved.EffectiveIsFresh | afl-cmin.py:802-809 | after every complete run main counts as many effective files as the workers together packed |
| CminSaved.CrashesAreAll | afl-cmin.py:811-822 | the merged crash list holds each file without a trace once and no other, for every schedule |
| CminPack.ReadBack | afl-cmin.py:580-583 | a trace reads back at its position whatever is written before and after |
| CminPack.ReadAtGrows | afl-cmin.py:602-608 | appending does not change what reads back |
| CminPack.DetectItemSize | afl-cmin.py:304-307 | the smallest width that is large enough, None exactly when eight bytes are not |
| CminPack.TupleOfFits | afl-cmin.py:467-468 | tuple numbers stay below nine times the map size and do not collide |
| CminResult.Merge | afl-cmin.py:811-822 | the loop over the results gives the minimum table, the summed counter and the crash lists one after the other |
| CminResult.MergedIsLeast | afl-cmin.py:811-822 | the merged table holds the least of all files with each tuple, for every schedule, and the no-file mark for tuples that do not occur |
| CminTotals.CounterIsTotal | afl-cmin.py:811-821 | the merged counter counts every occurrence in every file, for every schedule |
| CminTotals.Collect | afl-cmin.py:802-809 | the loop over the progress messages builds the position table and counts the saved traces |
| CminTotals.EveryEntryReadsBack | afl-cmin.py:803-808 | every recorded position leads to the whole trace of its file |
| CminTotals.LeastIsRecorded | afl-cmin.py:803-808 | the least file of every tuple has a recorded position |
| CminSelect.EveryRunIsReady | afl-cmin.py:794-822 | after every run main holds correct tables, and every lookup the selection makes will succeed and read its trace |
| CminSelect.ScheduleDoesNotMatter | afl-cmin.py:811-822 | the tables are the same for every number of workers and every schedule |
| CminSelect.Select | afl-cmin.py:839-948 | the saved files cover exactly the tuples that occur, each was called for by a tuple of its own, phase one saves exactly the forced files in the order of the list, phase two each time the file of the last tuple of the list still missing, and there are no more files than tuples |
| CminSelect.PhaseOne | afl-cmin.py:901-915 | the loop over the tuples with count one saves exactly the forced files, each with the first tuple of the list that calls for it |
| CminSelect.Combine | afl-cmin.py:600-609 | a combining worker collects the tuples of the files behind its positions |
| CminSelect.CombineAll | afl-cmin.py:917-932 | the results together are the coverage of phase one, in whatever order they arrive |
| CminSelect.PhaseTwo | afl-cmin.py:934-948 | from the last tuple of the list, the rarest, on, each missing one gets its least file, until all are covered |
| CminSelect.ListDecides | afl-cmin.py:901-948 | the list of tuples decides the selection file by file, and where phase one ends |
| CminCover.SavedOnce | afl-cmin.py:901-948 | no file is saved twice |
| CminCover.SavedBound | afl-cmin.py:901-948 | each saved file brings in a tuple, so there are no more files than tuples |
| CminCover.ForcedEverywhere | afl-cmin.py:903-911 | every sub-corpus with full coverage holds every phase-one file |
| CminCover.SavedIsSmallest | afl-cmin.py:732-733 | each saved file is a smallest file with some tuple that was missing |
| ByteStrings.SplitInvertsJoin | nv_http_harness.py:974 | splitting undoes joining exactly when no part holds or completes the delimiter |
| ByteStrings.JoinSplit | nv_json_mutator.py:193-221 | joining what was split gives the text back, in parts that are clean |
| ByteStrings.NoStraddle | nv_http_harness.py:974 | an occurrence cannot reach across a character that the delimiter does not have |
| ByteStrings.SplitPiecesLack | nv_http_harness.py:974 | no piece holds the delimiter, and each is a piece of the text |
| ByteStrings.LowerFolds | nv_http_harness.py:950 | lower-casing leaves no capital of the 26, each becoming its letter, and every other character as it is |
| MultipartLoops.ParseSeed | nv_http_harness.py:920-1043 | the loops with their early raises compute the parse specification |
| MultipartLoops.ParseHead | nv_http_harness.py:930-969 | the request line, header loop and boundary loop |
| MultipartLoops.ParseBody | nv_http_harness.py:971-1033 | the delimiter checks and the loop over the segments |
| MultipartLoops.ParsePart | nv_http_harness.py:983-1024 | one segment |
| MultipartGrammar.ParseExactly | nv_http_harness.py:920-1043 | a seed is accepted with a result exactly when the grammar gives it that result: lines, keys, items, parameters, delimiters and parts said over characters and places, the file name neither empty nor a dot or two, without slashes, backslashes and control characters |
| MultipartGrammar.AcceptedFilename | nv_http_harness.py:1017-1022 | no accepted seed has a file name that is empty, `.` or `..`, or holds `/`, a backslash, a character below 32 or 127 |
| MultipartFilename.BadFilenameRefused | nv_http_harness.py:1017-1022 | a printed seed, otherwise legal, whose ASCII file name without `;` and `"` breaks one of these rules is refused with FilenameInvalid |
| Utf8.ValidExactly | nv_http_harness.py:1029-1032 | a text value is valid exactly when it is the encoding of some Unicode characters, surrogates excluded |
| MultipartLoops.BuildBody | nv_http_harness.py:600-620 | the chunk loop prints the body that the round trip is about |
| MultipartLoops.MutateMultipart | nv_json_mutator.py:174-242 | the breaking scan and the three arms compute the mutation specification |
| MultipartLoops.ScanParts | nv_json_mutator.py:196-213 | the scan stops at the first inner part that names filedata |
| MultipartSeed.PrintParse | nv_http_harness.py:600-1043 | parsing a printed legal form returns its fields, file name and file bytes |
| MultipartExact.RoundTripExactly | nv_http_harness.py:600-1043 | it does so exactly for the legal forms |
| MultipartExact.ClientBoundarySafe | nv_http_harness.py:601-603 | the boundary the client makes is always one the parser reads back |
| MultipartLegal.ParsedIsCarried | nv_http_harness.py:971-1043 | no name or content the parser returns holds the delimiter, names are as headers carry them, text values are UTF-8 |
| MultipartRoundTrip.BodyRead | nv_http_harness.py:971-1043 | the parser reads back every printed body |
| MultipartPrinter.PartRead | nv_http_harness.py:983-1024 | the parser reads back every printed part |
| MultipartSeed.HeadRead | nv_http_harness.py:930-969 | the parser reads back every printed header block, with plain and with quoted boundary |
| MultipartText.BodyPrinted | nv_http_harness.py:600-620 | the body the client sends is, character by character, what its format strings give |
| MultipartText.HeadPrinted | nv_http_harness.py:625-634 | so is the head of a printed seed |
| MultipartArms.AcceptedBody | nv_http_harness.py:971-1033 | an accepted body is the join of clean parts of which the first is empty |
| MultipartUnread.ReadableIsViewed | nv_json_mutator.py:177-215 | the mutator works on a seed exactly when it has a blank line, the first Content-Type line names a boundary that is not empty, the body has three parts at least, and an inner part's header block holds `name="filedata"` |
| MultipartUnread.UnreadableKept | nv_json_mutator.py:174-242 | every other seed comes back as it is, for every arm, byte and maximal size, also when it is longer than that |
| MultipartUnread.AppendText | nv_json_mutator.py:216-221 | arm 0 on any readable seed, as text: one byte more behind the content, and everything before and behind it stays |
| MultipartUnread.AddedText | nv_json_mutator.py:231-241 | arm 2 on any readable seed, as text: one part more before the last delimiter, everything else stays |
| MultipartAppend.AppendMeaning | nv_json_mutator.py:216-221 | arm 0 changes the parsed result by one byte at the end of the chosen part, when the byte completes no delimiter |
| MultipartAppendExact.AppendExactly | nv_json_mutator.py:216-221 | it does so exactly when the delimiter behind the longer part is still the first that starts in it |
| MultipartAppendExact.FileAppendExactly | nv_json_mutator.py:175-221 | the result is the old meaning with one more file byte exactly when no delimiter starts too early and the chosen part carries a file name |
| MultipartFiledata.PrintedAppend | nv_json_mutator.py:196-221 | on a seed that the client prints: exactly when no field's header block looks like the file's and the longer file does not hold the delimiter |
| MultipartFiledata.FieldMutated | nv_json_mutator.py:196-221 | a printed seed with a text field named `filedata` is accepted, and arm 0 gives the field one more byte, not the file |
| MultipartFiledata.FieldMutatedExists | nv_json_mutator.py:196-221 | a concrete one |
| MultipartFiledata.ChosenPart | nv_json_mutator.py:196-213 | the part that the mutator takes carries a file name exactly when no text field looks like the file |
| MultipartTruncated.ClosingCut | nv_http_harness.py:971-1033 | an accepted seed that loses bytes behind its last delimiter keeps its meaning when just the line break behind the dashes is gone, and is refused otherwise |
| MultipartTruncated.TruncatedExactly | nv_json_mutator.py:242 | the same for a result cut to the maximal size |
| MultipartAppendExact.AppendWithLineEnd | nv_json_mutator.py:207-221 | for a part that ends in a line break that is: the longer content does not hold the delimiter |
| MultipartRedelimit.RedelimitMeaning | nv_json_mutator.py:222-230 | with one word `boundary`: arm 1 keeps fields, file name and bytes under the longer boundary when the literal parameter is in the header, and else the result is refused |
| MultipartRedelimitExact.RedelimitExactly | nv_json_mutator.py:222-230 | with any number of them: it keeps the meaning exactly when the first literal is the parameter that the parser reads, and else the result is refused |
| MultipartRedelimitExact.HeadElsewhere | nv_json_mutator.py:223-229 | a literal replaced anywhere else leaves a head that is refused or still names the old boundary |
| MultipartAgreeExact.BoundaryAgreesExactly | nv_json_mutator.py:181-190 | for every accepted head the mutator reads the parser's boundary exactly when the parameter it takes is plain (on a line that starts with `Content-Type:`, no space before `=`, no parameter behind it, the same edges as bytes and as text) and is the one the parser reads, or a later parameter repeats the boundary behind its own `boundary=` |
| MultipartAgreeExact.AgreesExactly | nv_json_mutator.py:177-190 | the same for whole seeds |
| MultipartAgreeExact.BoundaryAgrees | nv_json_mutator.py:181-190 | with one word `boundary` in the header block: exactly when the parameter is plain |
| MultipartAgreeExact.LiteralIsUnquoted | nv_json_mutator.py:225-229 | the literal is in the header block exactly when the parameter is in lower case with its value unquoted right behind `=` |
| MultipartAgreeExact.PlainMeaning | nv_json_mutator.py:222-230 | arm 1 on a plain parameter, from the text alone: unquoted the meaning is kept, quoted the result is refused |
| MultipartRedelimit.HeadRedelimited | nv_json_mutator.py:223-229 | a header block replaced at the parameter the parser reads parses to the same path and headers with the longer boundary |
| MultipartRedelimit.LiteralIsParameter | nv_json_mutator.py:225-229 | with one word `boundary` the literal that is replaced is the parameter that the parser reads |
| MultipartText.RedelimitText | nv_json_mutator.py:222-230 | arm 1 on any readable seed, as text: `-nv` goes in behind the first literal `boundary=B` of the header block and behind every delimiter, everything else stays |
| MultipartDescribe.AddedMeaning | nv_json_mutator.py:231-241 | arm 2 adds exactly one field when there is no description yet and line breaks are not mixed, and otherwise does not |
| MultipartDescribe.MixedRefused | nv_json_mutator.py:231-241 | with mixed line breaks the result is refused |
| MultipartDescribe.SegmentsDescribed | nv_json_mutator.py:233-240 | the inserted part adds the description field, or is a duplicate |
| MultipartWitness.QuotedRefused | nv_json_mutator.py:223-230 | every printed form with its boundary in quotes is accepted before arm 1 and refused after it, whatever the path and the fields are |
| MultipartWitness.QuotedExample | nv_json_mutator.py:223-230 | a concrete one |
| MultipartWitness.MixedExample | nv_json_mutator.py:231-241 | every printed form with LF line breaks and no text field, whose content holds a CRLF but neither a blank CRLF line nor a line break at its end, is accepted before arm 2 and refused after it |
| MultipartWitness.MixedExists | nv_json_mutator.py:231-241 | a concrete one |
| MultipartWitness.StraddleExample | nv_json_mutator.py:216-221 | for the boundary `A--A` and every path and file name, a seed whose file part ends in `--` is accepted before arm 0 with `A` and refused after it, although the longer content holds no delimiter |
| MultipartWitness.StraddleExists | nv_json_mutator.py:216-221 | a concrete one |

## Left out

- Running afl-showmap, reading map files, linking or copying the saved files and naming them: the traces are given, and a run of the minimiser is its queues and tables.
- `--no-dedup` and the copies into the crash directory: outside the cover argument; which files are crashes is `CminSaved.CrashesAreAll`.  In batch mode a crash is an empty trace, which the model keeps.
- The order of tuples that occur equally often in `most_common`: the list is given; any order among them is allowed, and the list decides the selection (`CminSelect.ListDecides`).
- Reseeding from /dev/urandom and `rand_next`: the words are an arbitrary finite tape, so termination of the retry loops is not claimed with any probability.
- The contents of the four strategy tables: any table of 256 kinds is allowed.
- HavocMutator.Mutator.AflMutate: the old contents of a scratch buffer that is enlarged are not carried over, because nothing reads them; aliasing of the splice buffer or a token with the buffer is not modelled.
- `afl_realloc_exact`, the debug canaries and the allocation macros of alloc-inl.h: not part of the growth argument.
- Alloc.RunIsMemory: covers requests whose size with its header is at most 2^32; beyond that the rounding need not double.
- Prealloc.FreeKeeps: freeing an element from malloc a second time is use of freed memory and not modelled.
- ExecSeq.CountOf: a well-formed character beyond ASCII counts as neither a digit nor white space, while Python takes the decimal digits and the spaces of Unicode for such; bytes that form no character are skipped as in the source.
- ExecSeqProtocol.EveryRun: file operations under the lock succeed; after a crash between truncating and writing the counter starts again and nothing is claimed.
- Bits.NextP2: arguments above 2^63, which the comment of the source excludes and on which its loop does not end.
- MultipartAppend.AppendMeaning: only the sufficient direction; `MultipartAppendExact.AppendExactly` has both.
- MultipartRedelimit.RedelimitMeaning: only for header blocks in which the word `boundary` stands once; `MultipartRedelimitExact.RedelimitExactly` is without that condition.
- MultipartAgreeExact.PlainMeaning: only for header blocks in which the word `boundary` stands once; `MultipartAgreeExact.AgreesExactly` and `MultipartRedelimitExact.RedelimitExactly` together are without that condition.
- Seeds of which the mutator reads another boundary than the parser: unchanged when the mutator finds no file part with it; nothing is said about the ones in which it does find one.
- Results that lose more than their closing line to the maximal size: `MultipartTruncated.TruncatedExactly` is about cuts behind the last delimiter.
- Sending requests, authentication, health checks, the JSON and query mutators, the GUI, mock servers, reports and campaign scripts: plumbing.
- The bandit, coverage-set and scheduling functions that are only declared in the headers modelled here.
