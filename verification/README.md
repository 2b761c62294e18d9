# A verified model of ccommon

ccommon is a C library of building blocks for cache servers: hashing, a timing wheel, configuration
options, histograms, ring buffers, growing buffers and number formatting. This project models the parts
whose correctness is least obvious from reading them and proves what they are for. `dafny verify
dfyconfig.toml` checks everything.

| module | models |
|---|---|
| `Xxh3` | streaming XXH3, 64 and 128 bits: a 256-byte buffer, scrambles at block ends, a last stripe rebuilt from bytes already consumed |
| `Xxh` | streaming XXH32 and XXH64, and the unrolled tails |
| `Scheduler`, `Wheel` | the timing wheel and its event pool, and the plain tick scheduler they refine |
| `Queues` | TAILQ and STAILQ on pointers, and a table of them as the wheel's tick walks it |
| `OptionExpr` | the shunting-yard compiler and the RPN evaluator of integer options |
| `Buckets`, `Histogram` | bucket arithmetic, recording, percentile reports |
| `RingArray` | the one-producer one-consumer ring, step by step |
| `Rbuf`, `Log` | the ring buffer and the logger above it |
| `Dbuf` | linear buffers, doubling, fitting, shrinking, and the TCP receive loop |
| `Digits`, `Print` | decimal printing and parsing of 64-bit integers |
| `Bytes`, `Arith`, `Filters` | shared helpers |

Objects that the C code updates in place are classes here, with the fields of the C structs; ghost fields
hold what the object stands for (the bytes fed to a hash, the scheduler a wheel implements, the exact bucket
counts), and `Valid` ties the two. Where a theorem is about functions left open (the mixing of a hash), others say
which bytes reach them, for every mixing that records its arguments. Machine widths, wrap-around and truncation
are written out wherever they can be observed. Callbacks, clocks, `recv`, `write`, `realloc` and `malloc` are
parameters that may answer anything.

## Where the code does not do what it is for

Each of these is a theorem: a condition on the input under which, and only under which, the code is right.

- The option compiler writes no blank after an operator it pops early, so the next number joins that token. Its
  output is the notation of the documented precedence reading if and only if nothing pops early
  (`ConvertsIffNoPop`); with the blank it is that notation for every expression (`SpacedConverts`), so the blank
  is all that is missing. With E early pops of P operators in all, an evaluation that gets to its end leaves
  1 + P - 2E values, so it is refused unless P is 2E (`EarlyPopsLeave`, `EarlyPopsRefuse`). `a*b+c` is refused,
  and `a*b*c+d` is read as `a+(b*c)` (`EarlyPopRefuses`, `EarlyPopMisreads`). Operators of equal precedence
  group to the right. A literal from 2^63 up is clamped (`LiteralExactIff`).
- `ring_array_create` takes any 32-bit cap, but every step has a value if and only if cap + 1 fits 32 bits too
  (`EveryStepHasValueIff`); with cap 2^32 - 1 the first push has no slot and divides by zero (`LargestCapFails`).
- `rbuf_write` and `rbuf_read` cut a length to 32 bits before comparing it, and a ring read from position 0
  has no guard at its start. `WriteRightIff` and `ReadRightIff` give the exact condition for every position,
  capacity and length; `CutWriteShowsGarbage` is an input. `log_write` stays within it (`GuardedWriteFits`).
- `max` of a multi-percentile report is the bucket of the last percentile; it is the highest non-empty one
  if and only if that percentile's rank reaches into that bucket (`MaxIff`, `MaxMissed`).
- 32-bit buckets add up to the exact counts if and only if none of them wrapped (`AddsUpIffNoWrap`,
  `FaithfulIff`). A report on wrapped buckets finds the rank if and only if they still reach it (`ReportMulti`).
- The int shifts that size a histogram have a value if and only if n is at most 30 (`ShiftsDefinedIff`,
  `ThirtyOneUndefined`). Those
  of `bucket_low` and `bucket_high`, which evaluate the formula of the other groups for the first one too, have
  one if and only if m is above 0 or the bucket is past the first group (`BoundShiftsDefinedIff`).
- Percentiles that differ by less than DBL_EPSILON are taken for equal, so an increasing list can be refused
  (`TooClose`).
- `digits` reads past its table if and only if the number is at least 10^19 (`DigitsInTableIff`).
- `cc_print_int64` prints a signed number right if and only if it is not negative or is INT64_MIN
  (`CheckedRightIff`, `MinusOneMisprinted`).
- The overflow checks of `bstring_atou64` and `bstring_atoi64` look at one character only
  (`Atou64RightIff`, `Atoi64RightIff`): twenty nines are accepted (`TwentyNinesAccepted`), and a lone sign parses
  as 0 (`MinusAlone`).
- The doubling loop of `dbuf_fit`, on 32 bits, ends if and only if the need is at most the largest of its first
  32 sizes (`LoopEndsIff`), and ends at the least doubling that fits if and only if the need is at most the
  largest doubling that 32 bits hold (`StopsRightIff`); between the two it ends at another size (`EndsWrong`).
- Every allowed buffer size doubles without wrapping if and only if max_size is below that largest doubling
  (`DoublesExactlyIff`), that is, if one doubling more than dbuf_max_power still fits (`SetupValidIff`).

## Model

| member | source | states |
|---|---|---|
| Xxh3.AbsorbSplit | include/hash/xxhash.h:4057-4079 | consuming i+n stripes at once equals consuming i, then n from the block position reached, for every position and secret |
| Xxh3.AbsorbPrefix | include/hash/xxhash.h:4057-4079 | only the bytes of the stripes consumed matter, so a stripe may come from the buffer or from the input |
| Xxh3.AdvanceIsMod | include/hash/xxhash.h:4057-4079 | the position in the block is the number of stripes modulo the stripes of a block |
| Xxh3.AccumulateIsAbsorb | include/hash/xxhash.h:3693-3708 | a run inside a block equals stripe-by-stripe consumption, with exactly one scramble more when it ends the block |
| Xxh3.Accumulate | include/hash/xxhash.h:3693-3708 | the accumulate loop computes the fold of the stripes in order, whose bytes `AccumulateTrace` names |
| Xxh3.AccumulateTrace | include/hash/xxhash.h:3693-3708 | for every byte place i and every mixing that records: stripe j of a run leaves byte 64j+i of the input and byte 8(pos+j)+i of the secret |
| Xxh3.AbsorbTrace | include/hash/xxhash.h:4057-4079 | of all stripes consumed, stripe q meets the secret from 8(q mod k) on, and a scramble with the last 64 bytes of the secret follows it exactly when k divides q+1 |
| Xxh3.ConsumeStripes | include/hash/xxhash.h:4057-4079 | with or without a block end on the way, the effect is that of the reference on the same stripes, and the counter is the reference position |
| Xxh3.LastBlockStripes | include/hash/xxhash.h:3710-3741 | whole blocks plus the stripes of the partial block are all whole stripes before the last byte |
| Xxh3.HashLongLoop | include/hash/xxhash.h:3710-3741 | block by block with a scramble each equals the block-free stripe reference plus the last 64 bytes |
| Xxh3.LongTrace | include/hash/xxhash.h:3710-3741 | the whole long accumulator, byte by byte: (len-1)/64 stripes, (secretSize-64)/8 of them a block, each with its secret bytes, a scramble behind each full block, and the last 64 bytes of the input with the window that starts 71 before the end of the secret |
| Xxh3.MergeTrace | include/hash/xxhash.h:4526-4541 | the merges take the 64 secret bytes from 11 on, and those that end 11 before its end, with the length times the first prime, and the complement of the length times the second, modulo 2^64 |
| Xxh3.Bits64 | include/hash/xxhash.h:3870-3890 | short, seeded, secret and long inputs all give the reference digest |
| Xxh3.Bits128 | include/hash/xxhash.h:4603-4622 | the same for 128 bits |
| Xxh3.Configurations | include/hash/xxhash.h:3907-3909 | seed 0 is the default and the built-in secret; another seed keys up to 240 bytes by value and longer inputs by its derived secret |
| Xxh3.SecretDigest | include/hash/xxhash.h:3901-3903 | a given secret keys inputs of both kinds, and the length merged is that of the input |
| Xxh3.DrainBuffer | include/hash/xxhash.h:4084-4151 | filling the buffer and consuming it leaves exactly the old bytes plus the copied prefix absorbed |
| Xxh3.DrainDirect | include/hash/xxhash.h:4084-4151 | 256 bytes consumed from the input continue the stripes, and their last stripe is the one kept for the digest |
| Xxh3.LastStripe | include/hash/xxhash.h:4161-4193 | the last 64 bytes fed are recovered from the buffer, even when part of them was consumed before |
| Xxh3.LastStripes | include/hash/xxhash.h:4161-4193 | absorbing the buffered stripes but the last reaches all whole stripes of everything fed |
| Xxh3.State.ResetInternal | include/hash/xxhash.h:4000-4024 | an empty state keyed by the given secret length, with the cached custom secret left alone |
| Xxh3.State.Reset | include/hash/xxhash.h:4026-4032 | a valid state with nothing fed, whatever the state was used for before |
| Xxh3.State.ResetWithSecret | include/hash/xxhash.h:4034-4042 | refused exactly for no secret or one under 136 bytes |
| Xxh3.State.ResetWithSeed | include/hash/xxhash.h:4044-4052 | the cached secret is that of the seed also when its derivation is skipped |
| Xxh3.State.Update | include/hash/xxhash.h:4084-4151 | appends the chunk to what was fed and keeps the invariant, for every size and fill level |
| Xxh3.State.ConsumeDirectly | include/hash/xxhash.h:4126-4141 | the direct loop stops with 1 to 256 bytes left, and the buffer's end holds the stripe before them |
| Xxh3.State.DigestLong | include/hash/xxhash.h:4161-4193 | the accumulator equals that of the one-shot long hash of everything fed |
| Xxh3.State.Digest64 | include/hash/xxhash.h:4195-4210 | equals the one-shot hash of everything fed, for every length |
| Xxh3.State.Digest128 | include/hash/xxhash.h:4707-4730 | the same for 128 bits |
| Xxh3.Hash64Chunks | include/hash/xxhash.h:4084-4210 | every split of an input into updates digests to its one-shot 64-bit hash |
| Xxh3.Hash128Chunks | include/hash/xxhash.h:4707-4730 | every split of an input into updates digests to its one-shot 128-bit hash |
| Xxh.Feed | include/hash/xxhash.h:1474-1535 | rounds over a+b are rounds over a, then over the tail of a followed by b |
| Xxh.TailLength | include/hash/xxhash.h:1474-1535 | the unconsumed tail has the total length modulo the stripe |
| Xxh.TailSuffix | include/hash/xxhash.h:1474-1535 | and is the end of the input |
| Xxh.StartLanes | include/hash/xxhash.h:1460-1471 | the lanes start at seed + P1 + P2, seed + P2, seed and seed - P1 modulo the word size |
| Xxh.LanesTrace | include/hash/xxhash.h:1402-1407 | lane j takes word j of every whole stripe, in order: for every byte place of a word, a mixing that records spells those bytes |
| Xxh.SwitchIsLoop32 | include/hash/xxhash.h:1303-1372 | the unrolled 32-bit tail performs the steps of the rolled one, for each of the 16 lengths |
| Xxh.SwitchIsLoop64 | include/hash/xxhash.h:1785-1908 | the unrolled 64-bit tail performs the steps of the rolled one, for each of the 32 lengths |
| Xxh.LoopOpsAre | include/hash/xxhash.h:1785-1908 | 8-byte steps only at 64 bits and as many as fit, then a 4-byte step if 4 are left, or as many as fit at 32 bits, then single bytes |
| Xxh.TailReaches | include/hash/xxhash.h:1303-1372 | the steps take every byte of the tail once and in order |
| Xxh.SpellInjective | include/hash/xxhash.h:1303-1372 | a recording spells different bytes differently |
| Xxh.OneShot | include/hash/xxhash.h:1382-1418 | the one-shot loop computes the reference hash, at both widths |
| Xxh.HashTrace | include/hash/xxhash.h:1382-1418 | below a stripe the seed and the constant, else the lanes of all whole stripes; then the length, then the bytes behind the last whole stripe, then the avalanche |
| Xxh.ShortHash | include/hash/xxhash.h:1411-1418 | an input shorter than a stripe: seed, the fifth prime and the length modulo the word size, then its bytes, then the avalanche |
| Xxh.State.constructor | include/hash/xxhash.h:1460-1471 | a valid state with nothing fed |
| Xxh.State.Update | include/hash/xxhash.h:1474-1535 | appends to what was fed; memsize is the total length modulo 16 or 32 after every call |
| Xxh.State.Count | include/hash/xxhash.h:1487-1488 | the sticky flag says whether 16 bytes were reached although the 32-bit counter wraps |
| Xxh.State.Absorb | include/hash/xxhash.h:2014-2072 | buffering and consuming keep the lanes at the rounds of all bytes and the buffer at their tail |
| Xxh.State.Digest | include/hash/xxhash.h:2075-2097 | equals the one-shot hash of everything fed, though the tail length comes from the total at one width and from memsize at the other |
| Xxh.HashChunks | include/hash/xxhash.h:1474-1554 | every split of an input into updates digests to its one-shot hash |
| Scheduler.InsertInv | src/time/cc_wheel.c:266-320 | an insertion keeps: everything fired so far, and next to fire, is what the births say |
| Scheduler.RemoveInv | src/time/cc_wheel.c:322-343 | a removal keeps it, and ends the event's expected firings there |
| Scheduler.TickInv | src/time/cc_wheel.c:386-416 | a tick keeps it |
| Scheduler.EndTickInv | src/time/cc_wheel.c:386-416 | a tick without re-arming keeps it |
| Scheduler.FiresExactly | src/time/cc_wheel.c:386-416 | after every run, each event ever inserted has fired at exactly its expected ticks, in order |
| Scheduler.OneShotOnce | src/time/cc_wheel.c:254-320 | a one-shot event inserted at T with offset o is expected at T+o and at no other tick |
| Scheduler.RecurringEvery | src/time/cc_wheel.c:386-416 | a recurring one is expected exactly at T+o, T+2o, ... until it ends |
| Scheduler.InsertedFires | src/time/cc_wheel.c:266-416 | for every run, from its operations alone: an insertion accepted after T ticks with offset o, and not cancelled since, has fired its own object at tick T+o and no other, or, recurring, exactly at the ticks T+jo passed so far, each once and in order |
| Scheduler.CancelledSilent | src/time/cc_wheel.c:322-343 | after a cancellation that insertion never fires again, whatever follows |
| Scheduler.LogSorted | src/time/cc_wheel.c:386-416 | in every run callbacks are made in the order of ticks |
| Scheduler.TicksAdd | src/time/cc_wheel.c:424-470 | runs cut anywhere compose to the uncut run |
| Scheduler.FlushFires | src/time/cc_wheel.c:472-485 | a flush fires each pending event exactly once, recurring ones included, no other, and leaves none |
| Scheduler.FlushSorted | src/time/cc_wheel.c:472-485 | a flush fires in the order of due ticks |
| Wheel.EventPool.constructor | include/cc_pool.h:40-47 | an empty pool; a limit of 0 means no limit but the counter's |
| Wheel.EventPool.Borrow | include/cc_pool.h:75-90 | fails exactly when nothing is free and the limit is reached or memory is out; otherwise a reset event leaves the free list |
| Wheel.EventPool.Return | include/cc_pool.h:92-97 | the event heads the free list; free and used objects stay all there are, within the limit |
| Wheel.SlotIsDue | src/time/cc_wheel.c:254-259 | with every due tick within one turn, the current slot holds exactly the events due now, in scheduler order |
| Wheel.SlotsAppend | src/time/cc_wheel.c:266-320 | appending to the slot of the due tick appends to the scheduler's queue |
| Wheel.SlotsWithout | src/time/cc_wheel.c:322-343 | unlinking from the slot named by the stored offset removes that event and no other |
| Wheel.OffsetLeast | src/time/cc_wheel.c:253-259 | the offset is the least number of ticks that covers the delay, a negative one read as unsigned |
| Wheel.TimingWheel.constructor | src/time/cc_wheel.c:198-239 | an empty wheel refining the empty scheduler; what is not free belongs to others |
| Wheel.TimingWheel.InsertEvent | src/time/cc_wheel.c:266-320 | accepted exactly when the pool can give an event and the offset is below cap and not a recurring 0; then it is the scheduler's insertion, the least number of ticks ahead that covers the delay, else the event is back in the pool; the due time, run state and pool limit stay |
| Wheel.TimingWheel.RemoveEvent | src/time/cc_wheel.c:322-343 | is the scheduler's removal, and the event is back in the pool; the due time and run state stay |
| Wheel.TimingWheel.Start | src/time/cc_wheel.c:345-359 | due one tick from now, the schedule untouched |
| Wheel.TimingWheel.Stop | src/time/cc_wheel.c:361-371 | not due, the schedule untouched |
| Wheel.TimingWheel.ProcessTick | src/time/cc_wheel.c:386-416 | calls back exactly the events due, in order, moves the recurring ones to the slots of their next ticks and puts all others on the free list; no object is lost |
| Wheel.TimingWheel.AdvanceCurr | src/time/cc_wheel.c:373-384 | curr stays the tick count modulo cap |
| Wheel.TimingWheel.Turn | src/time/cc_wheel.c:386-416 | is one tick of the scheduler, and the callbacks made stay those of its log |
| Wheel.TimingWheel.CallsExactly | src/time/cc_wheel.c:266-416 | in every reachable state: the callbacks made are the firings of the operations performed, and each event accepted and not cancelled was called back at exactly its ticks |
| Wheel.DueMoves | src/time/cc_wheel.c:454-462 | after n ticks the due time has moved by n ticks less the time they took, a tick at most for each, and so never back |
| Wheel.TimingWheel.Execute | src/time/cc_wheel.c:424-470 | for every clock: k turns are k scheduler ticks, each at or after its due time and within the limit, 0 being none; it stops only when not due, at the limit or when no reading is left, and a positive limit ends it |
| Wheel.TimingWheel.Flush | src/time/cc_wheel.c:472-485 | exactly cap ticks: curr is back at its start, no event is left, every event that was pending is on the free list, and free objects and those of others are all there are |
| Wheel.TimingWheel.CountIsSlots | src/time/cc_wheel.c:266-343 | in every reachable state nevent is the total length of the slots |
| Wheel.TimingWheel.OnePlace | src/time/cc_wheel.c:266-343 | in every reachable state each object is free, or held by others, or in the slot its offset names, once and in no other slot |
| Wheel.AccountedBorrow | src/time/cc_wheel.c:82-103 | a borrowed object leaves the free list, or is new, and every object stays accounted for |
| Wheel.AccountedReturn | src/time/cc_wheel.c:105-120 | a returned object is free and no longer listed, and every object stays accounted for |
| Wheel.FinishedFree | src/time/cc_wheel.c:386-416 | what was due and is not re-armed is free at the end of the tick |
| Wheel.TickRehomes | src/time/cc_wheel.c:386-416 | on the slots, a tick empties the current row in order, each entry going to the end of the row its delay names or nowhere |
| Wheel.FlushEmpties | src/time/cc_wheel.c:472-485 | one turn reaches everything pending |
| Queues.ContentsUnique | include/cc_queue.h:288-385 | the pointers reachable from a head determine the contents |
| Queues.InsertChained | include/cc_queue.h:315-331 | rewriting one next field and that of the new entry inserts it into the chain at that place |
| Queues.InsertBacks | include/cc_queue.h:605-650 | rewriting one back field and that of the new entry keeps every back link and the tail address |
| Queues.WithoutChained | include/cc_queue.h:341-369 | rewriting one next field takes exactly that entry out of the chain |
| Queues.WithoutBacks | include/cc_queue.h:660-676 | rewriting one back field keeps every back link and the tail address |
| Queues.TailqInit | include/cc_queue.h:599-603 | an empty queue whose tail address is the head's own |
| Queues.TailqInsertHead | include/cc_queue.h:629-640 | refines insertion in front, touching one field besides the head's and the entry's, on empty queues too |
| Queues.TailqInsertTail | include/cc_queue.h:642-650 | refines appending |
| Queues.TailqInsertAfter | include/cc_queue.h:605-617 | refines insertion behind any entry, the last included |
| Queues.TailqInsertBefore | include/cc_queue.h:619-627 | refines insertion before any entry, without the head |
| Queues.TailqRemove | include/cc_queue.h:660-676 | refines removal of any entry, touching two fields and not the entry's own |
| Queues.TailqConcat | include/cc_queue.h:564-573 | the first queue is followed by the second's entries, the second is empty; three fields and the second head are written |
| Queues.TailqSwap | include/cc_queue.h:678-693 | the two queues exchange their contents, either being empty or not |
| Queues.TailqLast | include/cc_queue.h:652-653 | reading an entry as a head gives the last entry, or null on an empty queue |
| Queues.TailqPrev | include/cc_queue.h:657-658 | reading an entry as a head gives the predecessor, or null for the first |
| Queues.TailqDrainSafe | include/cc_queue.h:584-587 | a traversal that saves the successor first visits all entries in order although each visit removes its entry |
| Queues.TailqRehome | src/time/cc_wheel.c:386-416 | on cells, the traversal that saves the successor visits every entry once and in order although each visit unlinks it and may link it into another queue, and leaves the rows that `Wheel.TickRehomes` describes |
| Queues.MoveFirst | include/cc_queue.h:642-676 | one such visit keeps every queue of the table well linked and all of them apart |
| Queues.StailqInit | include/cc_queue.h:310-313 | an empty queue whose tail address is the head's own |
| Queues.StailqInsertHead | include/cc_queue.h:321-325 | refines insertion in front, and moves the tail address only on an empty queue |
| Queues.StailqInsertTail | include/cc_queue.h:327-331 | refines appending |
| Queues.StailqInsertAfter | include/cc_queue.h:315-319 | refines insertion behind any entry, the last included |
| Queues.StailqRemoveHead | include/cc_queue.h:353-360 | refines removal of the first entry, the only one included |
| Queues.StailqRemoveAfter | include/cc_queue.h:362-369 | refines removal behind an entry, the last included |
| Queues.StailqRemove | include/cc_queue.h:341-351 | the search ends at the predecessor and removal changes nothing else |
| Queues.StailqConcat | include/cc_queue.h:288-294 | the first queue is followed by the second's entries, the second is empty |
| Queues.StailqSwap | include/cc_queue.h:371-382 | the two queues exchange their contents, either being empty or not |
| OptionExpr.EvaluatesExactly | src/cc_option.c:292-310 | an expression with no early pop, blanks anywhere, evaluates to the exact value of the documented precedence reading, or to an error exactly when a step is negative, above 2^64-1 or divides by zero |
| OptionExpr.TwoNumbers | src/cc_option.c:203-310 | a op b applies op to a and b in that order, for all numbers below 2^63 |
| OptionExpr.ThreeNumbers | src/cc_option.c:63-310 | a op b op' c applies op' first wherever it does not bind looser |
| OptionExpr.ConvertsIffBalanced | src/cc_option.c:94-187 | any text is converted if and only if it has digits, operators, parentheses and blanks only and its parentheses match |
| OptionExpr.ConvertsIffNoPop | src/cc_option.c:70-187 | every well-formed expression converts, and its tokens are the postfix form of the documented precedence reading if and only if no operator is popped early |
| OptionExpr.SpacedConverts | src/cc_option.c:70-187 | the documented shunting-yard, with a blank behind each popped operator, converts every well-formed expression to the postfix form of its precedence reading |
| OptionExpr.SpacedEvaluates | src/cc_option.c:292-310 | and the evaluator then gives that reading's exact value, or its error, for every expression with literals below 2^63 |
| OptionExpr.EvalTree | src/cc_option.c:203-286 | evaluating the postfix form of a tree pushes its exact value, or fails exactly when it has none |
| OptionExpr.NoPopReading | src/cc_option.c:63-68 | where nothing pops early, the precedence reading is the one that groups every operator to the right |
| OptionExpr.PopsIffEvents | src/cc_option.c:116-135 | counting the early pops of an expression finds one exactly when one happens |
| OptionExpr.EarlyPopsLeave | src/cc_option.c:116-135 | for every well-formed expression, with E early pops of P operators in all, an evaluation that gets to its end leaves 1 + P - 2E values |
| OptionExpr.EarlyPopsRefuse | src/cc_option.c:279-282 | so it is refused whenever P is not 2E |
| OptionExpr.EarlyPopRefuses | src/cc_option.c:116-135 | a*b+c is an error for all numbers |
| OptionExpr.EarlyPopMisreads | src/cc_option.c:116-135 | a*b*c+d is read as a+(b*c) for all numbers |
| OptionExpr.LiteralExactIff | src/cc_option.c:211-214 | a literal is read exactly if and only if it is below 2^63, and as 2^63-1 otherwise |
| OptionExpr.ConvertFits | src/cc_option.c:94-187 | the output is at most three times the input, so every allowed value fits the work buffer |
| OptionExpr.RunCost | src/cc_option.c:94-187 | bytes written plus twice the stack depth grow by at most 3 a character, the stack by at most 1 |
| OptionExpr.ConvertRpn | src/cc_option.c:94-187 | the array loop stays in its buffers and leaves the conversion's text, ended by NUL, or fails exactly when the conversion does |
| OptionExpr.ReadChar | src/cc_option.c:101-171 | one character on the arrays is one step of the conversion |
| OptionExpr.ApplyOp | src/cc_option.c:228-273 | the overflow tests on wrapped results find exactly the operations without a 64-bit value, and each result is what its inverse says |
| OptionExpr.ExactMeans | src/cc_option.c:228-273 | each operation by its inverse: sum less b is a, difference plus b is a, product over b is a, and the quotient is the whole number of times b goes into a; none when the sum or product is above 2^64-1, the difference below 0 or b is 0 |
| OptionExpr.WrappedProduct | src/cc_option.c:250-259 | dividing the wrapped product gives the factor back if and only if the product did not wrap |
| OptionExpr.EvaluateRpn | src/cc_option.c:203-286 | the array-stack loop computes the evaluation of the token list |
| OptionExpr.EvaluateIntExpr | src/cc_option.c:292-310 | the two loops together compute the value of the text |
| Buckets.ShiftsDefinedIff | src/stats/cc_histogram.c:33-37 | the int shifts have a value if and only if n is at most 30 |
| Buckets.ThirtyOneUndefined | src/stats/cc_histogram.c:15-37 | n = 31 passes the validation and its shift is no int |
| Buckets.BoundShiftsDefinedIff | include/cc_histogram.h:61-81 | for the buckets of a valid shape, both shifts of the general formula have a value if and only if m is above 0 or the bucket is past the first group |
| Buckets.HighBitBounds | src/stats/cc_histogram.c:81-97 | the highest bit brackets the value between consecutive powers of two |
| Buckets.Contains | src/stats/cc_histogram.c:81-97 | every value lies between the low and the high end of its offset's bucket |
| Buckets.Adjacent | include/cc_histogram.h:61-81 | no bucket is empty and each ends right before the next |
| Buckets.FirstAndLast | include/cc_histogram.h:61-81 | the first bucket starts at 0 and the last ends at N |
| Buckets.Ordered | include/cc_histogram.h:61-81 | buckets are disjoint and in order |
| Buckets.Partition | src/stats/cc_histogram.c:81-97 | every value up to N lies in exactly one bucket, that of its offset, which is in the table |
| Buckets.OffsetMonotone | src/stats/cc_histogram.c:81-97 | larger values have no smaller offset |
| Buckets.Precision | include/cc_histogram.h:61-81 | from 2^(r-1) up, a bucket's width times G is at most its low end |
| Histogram.Histo.constructor | src/stats/cc_histogram.c:10-52 | all buckets and the record count are 0 |
| Histogram.Histo.Record | src/stats/cc_histogram.c:99-116 | refused exactly above N; otherwise the bucket whose range holds the value, and the total, grow by the count |
| Histogram.AddsUpIffNoWrap | src/stats/cc_histogram.c:99-116 | 32-bit buckets add up to the exact counts if and only if no bucket reached 2^32 |
| Histogram.FaithfulIff | src/stats/cc_histogram.c:99-116 | below 2^64 records, the buckets add up to nrecord if and only if no bucket reached 2^32 |
| Histogram.ThresholdBounds | src/stats/cc_histogram.c:133-137 | a rank between 0 and the record count, the record count for 100 |
| Histogram.ThresholdLeast | src/stats/cc_histogram.c:133-137 | the rank is the least integer not below p percent of the records |
| Histogram.ThresholdMono | src/stats/cc_histogram.c:133-137 | larger percentiles have no smaller rank |
| Histogram.HoldsUnique | src/stats/cc_histogram.c:139-181 | a rank lies in one bucket only, so the two reports that find it agree |
| Histogram.PercentileIff | src/stats/cc_histogram.c:133-181 | the bucket of the rank is the one up to which at least p percent of the records lie and before which less do, or none |
| Histogram.GreaterOrClose | src/stats/cc_histogram.c:118-131 | either one of two percentiles is greater, by 2^-52 at least, or they are taken for equal |
| Histogram.Report | src/stats/cc_histogram.c:139-181 | for every histogram: the bucket where the running count reaches p percent of the records, or the last one when it never does, with each error exactly in its case |
| Histogram.FaithfulReport | src/stats/cc_histogram.c:139-181 | when the buckets add up to nrecord, every percentile from 0 to 100 gets the bucket of its rank |
| Histogram.ProfileSet | src/stats/cc_histogram.c:298-330 | accepted exactly for percentiles in range and increasing by at least DBL_EPSILON; otherwise the error of the first one that is refused; the count is set in any case |
| Histogram.TooClose | src/stats/cc_histogram.c:118-131 | 0 and 10^-17 are refused as unordered |
| Histogram.ScanTo | src/stats/cc_histogram.c:183-240 | resuming the scan finds the bucket of the next rank without starting over, and stands right behind it, or ends behind the last bucket |
| Histogram.Fill | src/stats/cc_histogram.c:183-240 | all percentiles whose rank is reached get the bucket, and the next threshold is beyond it |
| Histogram.ReportMulti | src/stats/cc_histogram.c:183-240 | for every histogram: one pass gives a percentile the bucket of its rank if and only if the buckets reach that rank; which of the others get the last bucket in use and which keep what they had; min is the lowest non-empty bucket, max the last one found |
| Histogram.MultiAgrees | src/stats/cc_histogram.c:139-240 | where the buckets reach a rank, the one-pass result is what a report of that percentile alone gives |
| Histogram.ReportBoth | src/stats/cc_histogram.c:139-240 | both reports on a histogram whose buckets add up to nrecord give the same bucket for every percentile from 0 to 100 |
| Histogram.MaxIff | src/stats/cc_histogram.c:232-237 | max is the highest non-empty bucket if and only if the last rank exceeds the count below that bucket |
| Histogram.MaxMissed | src/stats/cc_histogram.c:232-237 | two records in two buckets and the 50th percentile: max is the lower bucket |
| Histogram.MaxWithHundred | src/stats/cc_histogram.c:232-237 | which holds when the last percentile is 100 |
| RingArray.NelemCounts | src/cc_ring_array.c:73-81 | the positions give the number of elements between the two counters |
| RingArray.SlotsDiffer | src/cc_ring_array.c:83-134 | counters at most cap apart name different slots unless equal |
| RingArray.NextInv | src/cc_ring_array.c:83-149 | every load, copy and store of either thread keeps the invariant, with stale loads on both sides |
| RingArray.RunInv | src/cc_ring_array.c:83-149 | so it holds after every interleaving |
| RingArray.EveryInterleaving | src/cc_ring_array.c:83-149 | no slot is written while read, never more than cap elements, the elements stored are those of the completed pushes, a completed pop delivers exactly if it was given a place, and then the element pushed at its place, and a push or pop is refused only when the ring was full or empty at its load |
| RingArray.NoneDiscarded | src/cc_ring_array.c:115-134 | if every pop of a run has a place for its element none is discarded, and if none has one none is delivered |
| RingArray.PushRefusedIff | src/cc_ring_array.c:83-113 | a push is refused if and only if the ring was full at its load, whatever is popped before the check |
| RingArray.PopRefusedIff | src/cc_ring_array.c:115-142 | a pop is refused if and only if the ring was empty at its load, whatever is pushed before the check |
| RingArray.FlushTakesAll | src/cc_ring_array.c:144-149 | a flush removes everything pushed before its load and nothing else, whatever is pushed meanwhile |
| RingArray.EveryStepHasValueIff | src/cc_ring_array.c:73-170 | for every 32-bit cap, every step of every run stays in the slots allocated and has the value the model uses if and only if cap + 1 is below 2^32 |
| RingArray.LargestCapFails | src/cc_ring_array.c:83-170 | with cap 2^32 - 1 the first push has no slot, and the next position is a division by zero |
| RingArray.ReadsWhole | src/cc_ring_array.c:115-134 | a pop copies the whole element that was pushed at its place |
| Rbuf.CapacitiesAddUp | src/cc_rbuf.c:148-175 | readable and writable bytes add up to the capacity in every legal state, positions at cap+1 included |
| Rbuf.WriteRightIff | src/cc_rbuf.c:177-266 | for every position, 32-bit capacity and length: the copies stay in the ring and append what there is room for if and only if the length is below 2^32 and the read position is above 0 or it fits the free space, or it is longer, the read position is above 0 and its cut covers the free space, or it is longer, both positions are 0, and its cut is cap, which is 0 or 2^32 - 1 |
| Rbuf.ReadRightIff | src/cc_rbuf.c:177-223 | a read delivers what is asked for and there, and leaves the rest, if and only if the length is below 2^32 or its cut still covers what is there |
| Rbuf.GuardedWriteFits | src/cc_log.c:200-201 | a write of at most the free space is right |
| Rbuf.CutWriteShowsGarbage | src/cc_rbuf.c:225-266 | 2^32 bytes into an empty ring of 10: none is copied and 10 appear unread |
| Rbuf.Ring.constructor | src/cc_rbuf.c:56-79 | an empty ring, for every 32-bit capacity |
| Rbuf.Ring.Rcap | src/cc_rbuf.c:148-160 | the length of the contents |
| Rbuf.Ring.Wcap | src/cc_rbuf.c:162-175 | what the contents leave of the capacity |
| Rbuf.Ring.Read | src/cc_rbuf.c:183-223 | for every length, the bytes and the position of the cut plan; where the length fits, the front of the contents, around the end too, and the rest stays |
| Rbuf.Ring.Write | src/cc_rbuf.c:225-266 | for every length whose copies stay in the ring, the memory and position of the cut plan; where the length fits, the prefix there is room for is appended |
| Log.Logger.constructor | src/cc_log.c:91-138 | an empty logger, unbuffered exactly for capacity 0 |
| Log.Logger.Write | src/cc_log.c:196-225 | a message is accepted exactly when it fits, then whole, else the ring is unchanged |
| Log.Logger.WriteDirect | src/cc_log.c:196-225 | without a ring, accepted exactly when the system took it whole |
| Log.Logger.FlushRing | src/cc_log.c:264-307 | for every short or failed write, exactly the bytes the system took leave the ring for the file, file then ring keep their concatenation, and two full writes empty the ring |
| Log.Logger.Flush | src/cc_log.c:309-335 | sends exactly what the answers of the system allow from the ring's positions, nothing without a ring or a file, and returns that number |
| Log.SentIs | src/cc_log.c:264-307 | a short answer is taken at its word, an error sends nothing more, and everything unread goes out if and only if the writes are complete |
| Dbuf.LeastBelow | src/buffer/cc_dbuf.c:99-127 | the size found is below every other doubling that fits |
| Dbuf.FindSize | src/buffer/cc_dbuf.c:112-115 | whenever it ends, the loop ends at the first of the wrapped sizes that is large enough, which is the least doubling that fits whenever 32 bits hold one |
| Dbuf.StopsRightIff | src/buffer/cc_dbuf.c:112-115 | it ends at the least doubling that fits if and only if the need is at most the largest doubling below 2^32 |
| Dbuf.EndsWrong | src/buffer/cc_dbuf.c:112-115 | from 11 * 2^28 a need of 3000000000 ends at 3 * 2^30, which is no doubling |
| Dbuf.LoopEndsIff | src/buffer/cc_dbuf.c:112-115 | for every 32-bit initial size, it ends if and only if the need is at most the largest of the first 32 sizes |
| Dbuf.NoneFits | src/buffer/cc_dbuf.c:50-81 | when the least fitting size is above the limit, no allowed size fits |
| Dbuf.Buf.constructor | src/buffer/cc_buf.c:128-149 | an empty buffer of the initial size |
| Dbuf.Buf.Read | include/buffer/cc_buf.h:157-168 | takes the unread bytes off the front |
| Dbuf.Buf.Write | include/buffer/cc_buf.h:170-185 | appends the prefix that fits |
| Dbuf.Buf.Lshift | include/buffer/cc_buf.h:187-200 | the unread bytes survive an overlapping move to the front |
| Dbuf.Buf.Rshift | include/buffer/cc_buf.h:202-215 | the unread bytes survive an overlapping move to the end |
| Dbuf.Buf.Resize | src/buffer/cc_dbuf.c:50-81 | unread bytes and positions survive success and failure; too large and out of memory are told apart |
| Dbuf.Buf.Double | src/buffer/cc_dbuf.c:83-97 | doubles the size or, exactly when that is over the limit or memory is out, changes nothing |
| Dbuf.DoublesExactlyIff | src/buffer/cc_dbuf.c:83-97 | all sizes up to max_size double exactly on 32 bits if and only if max_size is below the largest doubling they hold |
| Dbuf.SetupValidIff | src/buffer/cc_dbuf.c:29-33 | which holds for a max_size of init << max_power if and only if one doubling more fits |
| Dbuf.Buf.Fit | src/buffer/cc_dbuf.c:99-127 | for every request on which the loop ends: the least size that fits, or an error exactly for too many unread bytes or no allowed size, or out of memory only when a needed reallocation fails |
| Dbuf.Buf.Shrink | src/buffer/cc_dbuf.c:129-157 | the least size for the unread bytes, never a larger one, or out of memory only when a needed reallocation fails |
| Dbuf.ReceiveOnce | src/stream/cc_sockio.c:181-200 | one receive appends what arrived and sets status and channel state by kind of answer |
| Dbuf.Round | src/stream/cc_sockio.c:158-201 | one round doubles exactly a full buffer, and goes on exactly if a receive filled it |
| Dbuf.TcpRead | src/stream/cc_sockio.c:144-209 | ends for every peer, appends the received pieces in order after the old bytes, has doubled the size as often as it says, within the limit and only when full, went on exactly after receives that filled one of its sizes, and each status has its cause, a retry that the next doubling is too large or fails |
| Digits.DecimalRoundTrip | src/cc_print.c:28-39 | the numeral of a number denotes it |
| Digits.NoLeadingZero | src/cc_print.c:28-39 | no numeral starts with 0 but that of 0 |
| Digits.DecimalInjective | src/cc_print.c:28-39 | different numbers have different numerals |
| Digits.LengthMono | include/cc_print.h:55-70 | larger numbers have no shorter numeral |
| Print.TableIsPow10 | include/cc_print.h:55-60 | the table holds the powers of ten, except its first entry |
| Print.DigitsInTableIff | include/cc_print.h:55-70 | the search stays in the table if and only if n is below 10^19, and then finds the numeral's length |
| Print.CountDigits | include/cc_print.h:62-70 | the loop returns the numeral's length |
| Print.PrintBackwards | src/cc_print.c:28-39 | filling backwards leaves the numeral, and nothing else changed |
| Print.PrintUint64Unsafe | src/cc_print.c:41-50 | the numeral at the buffer's start, and its length |
| Print.PrintInt64Unsafe | src/cc_print.c:52-66 | sign and numeral for every signed number, INT64_MIN included |
| Print.PrintUint64 | src/cc_print.c:68-81 | nothing is written exactly when the size is too small |
| Print.PrintInt64 | src/cc_print.c:83-101 | what the code leaves in memory, before the buffer too, since it prints the unsigned image in the space of the absolute value |
| Print.CheckedRightIff | src/cc_print.c:83-101 | that is the signed numeral if and only if n is not negative or is INT64_MIN |
| Print.MinusOneMisprinted | src/cc_print.c:83-101 | -1 is printed wrong |
| Print.BstringAtou64 | src/cc_bstring.c:158-186 | the loop computes the wrapping reading of the string |
| Print.Atou64RightIff | src/cc_bstring.c:158-186 | which is the number, or an error for what is none or too large, if and only if 20 digits do not start with 19 over UINT64_MAX/10, or over 20 are too large anyway |
| Print.TwentyNinesAccepted | src/cc_bstring.c:158-186 | twenty nines are too large and accepted |
| Print.Uint64RoundTrip | src/cc_bstring.c:158-186 | parsing a printed number gives it back, for all 64-bit numbers |
| Print.BstringAtoi64 | src/cc_bstring.c:118-156 | the loop computes the wrapping reading of the string |
| Print.Atoi64RightIff | src/cc_bstring.c:118-156 | which is right if and only if the string is no numeral, is in range and short enough, or is out of range where the one overflow check sees it |
| Print.MinusAlone | src/cc_bstring.c:118-156 | a sign without digits is taken for 0 |
| Print.Int64RoundTrip | src/cc_bstring.c:118-156 | parsing a printed number gives it back, for all signed 64-bit numbers |

## Left out

- Print.CountDigits: numbers from 10^19 up are excluded, because there the code reads past its table (`DigitsInTableIff`).
- Print.PrintUint64Unsafe: numbers from 10^19 up are excluded, for the same reason.
- Print.PrintUint64: numbers from 10^19 up are excluded, for the same reason.
- Print.PrintInt64Unsafe: the negation of INT64_MIN, undefined in C, is taken to wrap to itself.
- Print.PrintInt64: the same negation is taken to wrap.
- Print.BstringAtoi64: signed overflow, undefined in C, is taken to wrap.
- OptionExpr.ConvertsIffNoPop: is about the tokens; that a misread expression can have the right value by coincidence is not characterised.
- OptionExpr.EvaluatesExactly: literals from 2^63 up, which are clamped, are excluded (`LiteralExactIff`).
- OptionExpr.EarlyPopsRefuse: goes one way; with P equal to 2E an evaluation can still fail on the way.
- Rbuf.Ring.Write: calls that leave the ring's memory are excluded; `WriteRightIff` covers them as wrong.
- Log.Logger.WriteDirect: an unbuffered message refused after a short write has partly reached the file.
- Buckets.Contains: where a shift of the unused formula has no value (`BoundShiftsDefinedIff`), its product with 0 is taken for 0.
- Buckets.Adjacent: the same.
- Buckets.FirstAndLast: the same.
- Histogram.Report: a percentile less than DBL_EPSILON below 0 can give a negative threshold, undefined when converted in C; it is taken for 0.
- Histogram.ReportMulti: assumes, as the source says, a profile that was accepted.
- Dbuf.Buf.Fit: requests on which the loop never ends are excluded (`LoopEndsIff`).
- Dbuf.Buf.Double: a max_size that allows a size whose double wraps is excluded, as in all of `Dbuf` (`DoublesExactlyIff`).
- Xxh3.State.Digest64: totals from 2^64 bytes up, where the length counter wraps, are excluded, as for every 64-bit digest.
- Percentile thresholds and durations are exact, not floating point.
- The ring array's loads and stores are sequentially consistent; weaker orderings are not modelled.
- Rounds, accumulation, scrambling, merging and the short-input hashes of xxHash are arbitrary functions; SIMD variants and secret generation are not modelled.
- Several wheels sharing one pool are modelled from one wheel's side: the others' events are a set that its operations keep.
- Wheel slots and the free list are sequences in `Wheel`; `Queues` proves that the pointer operations, and a tick's traversal, do the same to linked cells.
- Callbacks that insert or remove events, and destroying a wheel that is not empty, are not modelled.
- Preallocation and destruction of pools: loops over borrow and return.
- murmur3: bit mixing with nothing to compare it to.
- Sockets, pipes, event loops, signals, files, metrics, debug output, the Rust crates: plumbing.
- Arrays, string copy and comparison, option file parsing: would only add easy members.
