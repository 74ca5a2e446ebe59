# Verified model of the Ethernet firmware

The firmware answers ARP, ICMP echo and character generator requests on a CH32V307. This
project models four of its parts and proves what they promise.

* **The buffer protocol** (`src/ethernet.c`). Nine packet buffers circulate between an 8-slot
  receive ring, an 8-slot transmit ring and a one-buffer pool. Interrupt code moves them while
  the DMA engines work on the same descriptors. `DmaRing` is the transition system: one CPU
  step per access to a shared descriptor, one DMA step per completed descriptor, interleaved
  freely, with any engine that follows its rings. `RingInvariant` and `RingSteps` prove the
  invariant of the runs in which the drain has not gone astray, and `RingTheorems` says what it
  means for the driver. `StaleAddresses` says what drained descriptors still name, and from it
  exactly which runs go astray; `Naming` says exactly when two descriptors name one buffer.
  `ObservedEngine` shows that the engine the authors observed never goes astray, `ConcreteRuns`
  that other engines do. `Ethernet` is the interrupt code itself, a class over arrays whose
  methods let the observed engine act before every access, call the frame handler, and are
  proved to take the steps of `DmaRing`.
* **The PCG generators** (`src/pcg_variants.h`). `Lcg` proves the period of the linear
  congruential step for every word width, `PcgOutput` that the output functions are
  permutations or balanced, and what they are bit by bit, and `Pcg` combines them into statements
  about whole periods of draws, about the rejection loop and about seeding.
* **Chaskey and the random sources** (`src/chaskey.c`, `src/prng.c`, `src/systick.h`). `Chaskey`
  proves the cipher invertible and its register-only forms equal to it; `ChaskeyMachine` is the
  same cipher on 32-bit bit vectors with its eight rounds written out, proved to compute the same
  values, and from it what a round and eight rounds do. `SysTick` proves when the
  torn-read-safe clock is exact, and `Prng` composes them: no repeated block under one key, and
  the behaviour of key stirring and entropy injection.
* **The frame handler** (`src/prdk.c`). `Replies` gives each answer byte by byte as a function
  of the request; `Prdk` is the code that rewrites the frame in place, proved to leave exactly
  that answer (`Prdk.Responder.PacketRxInterrupt`). `AnsweredIff` says by the bytes of a frame
  whether it is answered. `AnswersGoBack`, `ChargenHeaders` and the three `...ReplyForm` lemmas
  only read the byte tables in the terms of the protocols; their weight is in that proof about the
  code. `Service` puts the handler into the buffer protocol: what is
  sent is the answers to what arrives, and `Ethernet.Driver.RxInterrupt` ends with exactly those
  queued. `Frames` holds the frame layout and the byte order of `src/inline.h`.

`Words`, `Bits` and `Counting` hold the arithmetic underneath. Machine words are natural numbers,
with wrap-around written as a remainder or as `Low`, because most proofs are about residues, periods
and counts rather than about bit patterns. `Machine` ties them to bit vectors: each bit vector has
a value, each value a bit vector, and addition, exclusive or and the rotations of the cipher
compute the same on both (`Digits` has the argument, digit by digit). In the rings, position `k` counts without wrap and
lives in slot `k % 8`.

Three properties one might expect are false of the code. For each there is a concrete case that
shows it and the exact condition under which it holds:

* "Each buffer is named by one descriptor" fails, because the recycle path leaves the address
  of a drained descriptor in place: `ConcreteRuns.NamedTwice` is such a run. Between handler
  runs it holds if and only if every frame whose descriptor has not been armed again was
  answered (`Naming.NamedOnceIff`); `Naming.NamedOnceIffClean` is the condition at every program
  point. What always holds is a partition of the buffers over the live windows between the
  cursors, and that no two descriptors *owned by the engines* name the same buffer.
* Exactly-once service fails with an engine that fills the last descriptor it owns:
  `ConcreteRuns.LastDescriptorTaken` is such a run. With any engine it holds up to a step if and
  only if, in no earlier step, a drain that has taken every frame, from an engine that has no
  buffer left, comes round to a descriptor whose last frame was not answered
  (`StaleAddresses.ExactIffPatient`). The engine of `src/ethernet.c:254-256` always keeps a
  buffer, so with it service is exact in every run (`ObservedEngine.ObservedExact`).
* "An answer is never answered" fails for an answer of fewer than 35 bytes, which ends before
  its type byte; only an echo request with an IP length of at most 20 gets one, because the code
  trusts that length (`src/prdk.c:47`). `Replies.ShortEcho` is such a request. A receiver never
  answers, whatever its buffer held before, if and only if at least 35 bytes are sent
  (`Replies.UnansweredIff`, `Service.LoopFreeIff`). If the sender's MAC pads short frames with
  zeros to 60 bytes, which is an assumption on the hardware (`Replies.Padded`), no answer of
  any length is answered.

## Model

| member | source | states |
|---|---|---|
| RingInvariant.InitInv | src/ethernet.c:140-166 | the state set up by `EthernetInitializeDma` satisfies the invariant |
| RingInvariant.WindowsDisjoint | src/ethernet.c:23-27 | in a state that conserves the buffers, no buffer is twice in a live window, in two windows, or in a window and in the CPU's hands, and the windows and the hands hold eight together |
| RingSteps.StepInv | src/ethernet.c:236-319 | every step of the interrupt code and of any engine, in any interleaving, keeps the invariant (conservation, cursors, both rings, buffer contents, history), except a drain that has taken every frame and goes on past the null check |
| RingSteps.RunInv | src/ethernet.c:236-319 | so every state of every run from initialization satisfies it, as long as no step has gone astray that way |
| RingTheorems.OwnershipPartition | src/ethernet.c:236-279 | in every such state, with any engine, each of the nine buffers is in exactly one of: receive window, transmit window, CPU's hands, pool |
| RingTheorems.OwnedHasBuffer | src/ethernet.c:387-390 | publication order: at every instruction-level interleaving, a descriptor owned by an engine has a buffer |
| RingTheorems.NoSharedBuffer | src/ethernet.c:272-278 | despite stale addresses, no two descriptors owned by the engines, in one ring or across both, name the same buffer |
| RingTheorems.DeadBranches | src/ethernet.c:237-246 | the leak branch, the transmit overrun branch and the empty-pool branch are unreachable with any engine; the spare stays in the pool |
| RingTheorems.AlwaysAStep | src/ethernet.c:257-279 | the interrupt code never meets a null pointer it would use: its next step is possible in every reachable state |
| RingTheorems.ExactlyOnceInOrder | src/ethernet.c:257-279 | the drained frames are the first arrivals, each once and in order, and the frame in hand is the next one; what was sent, is queued or about to be queued is exactly the replies to them, in order, with the contents and lengths the handler left |
| RingTheorems.ExactIffSteady | src/ethernet.c:257-279 | in every run with any engine, service is exact in all states up to `n` if and only if no earlier step takes a caught-up drain past the null check |
| RingTheorems.AllServed | src/ethernet.c:253-319 | when the handlers are idle and the engines are done with the CPU's descriptors, every arrival was drained and exactly the replies were sent |
| RingTheorems.CursorLockstep | src/ethernet.c:20-27 | between handler runs, with any engine, both cursor distances agree modulo 8 with the number of buffers outstanding for transmission |
| RingTheorems.EngineWalk | src/ethernet.c:148-163 | the end-of-ring flags stay on exactly the last descriptors, so the flag-driven walk of the engines is the masked increment |
| RingTheorems.DrainEndsCaughtUp | src/ethernet.c:260-261 | the drain meets a descriptor of the engine exactly when it has taken every completed frame and the engine has buffers left |
| RingTheorems.ReapStopsCaughtUp | src/ethernet.c:311-312 | the reap meets a descriptor of the engine exactly when all sent buffers are reaped and more are queued |
| RingTheorems.ReapEndsEmpty | src/ethernet.c:313-314 | the reap meets an empty descriptor exactly when everything queued has been reaped |
| RingTheorems.NeverAhead | src/ethernet.c:257-318 | the drain never overtakes the receive engine, nor the reap the queue |
| StaleAddresses.StepFree | src/ethernet.c:272-278 | every step keeps what the free receive descriptors hold: nothing if the frame last drained from them was answered, else the address of its buffer |
| StaleAddresses.RunFree | src/ethernet.c:272-278 | so this holds in every state of every run that has not gone astray |
| StaleAddresses.StraysIff | src/ethernet.c:262-263 | a step goes astray first if and only if the engine has no buffer left, the drain has taken every frame and the frame eight positions back was not answered; all eight buffers then wait for transmission, and the one taken is among them |
| StaleAddresses.ExactIffPatient | src/ethernet.c:257-279 | in every run with any engine, service is exact up to `n` if and only if that situation has not arisen before `n` |
| ObservedEngine.AnotherPosition | src/ethernet.c:254-256 | when the engine owns another descriptor besides the next one, at least two buffers of the receive window are still unfilled, so one is left after it fills one |
| ObservedEngine.ObservedSteady | src/ethernet.c:254-256 | no run of the observed engine goes astray, and it always has a buffer left |
| ObservedEngine.ObservedExact | src/ethernet.c:253-279 | service is exact in every state of every run of the observed engine |
| ObservedEngine.NullExitDead | src/ethernet.c:262-263 | with it the null-buffer exit of the drain is unreachable |
| ObservedEngine.AtMostSeven | src/ethernet.c:20-27 | with it both cursor distances between handler runs are the number of buffers outstanding for transmission, at most seven |
| Naming.NamedOnceIffClean | src/ethernet.c:236-319 | at every program point, no buffer is named by two descriptors if and only if no reaped buffer is still named by both rings and at most one drained descriptor has kept its address, that of a buffer in hand which no other descriptor names |
| Naming.NamedOnceIff | src/ethernet.c:272-278 | between handler runs no buffer is named by two descriptors if and only if every frame whose descriptor has not been armed again was answered |
| ConcreteRuns.NamedTwice | src/ethernet.c:277-278 | a run of the observed engine after which two descriptors name one buffer: two frames arrive, the first is answered, the second is not |
| ConcreteRuns.LastDescriptorTaken | src/ethernet.c:254-256 | a run with an engine that fills its last descriptor: more frames are drained than arrived, and a reply owned by the transmit engine is overwritten |
| Service.SendsAnswers | src/ethernet.c:270-276 | when frames are handled as `PacketRxInterrupt` handles them, what was sent, is queued or about to be queued is the answers to the arrivals drained so far, in order |
| Service.DrainedOutcome | src/ethernet.c:267-278 | in every run, by the flags of its descriptor: a drained frame is answered if and only if it came whole and without error and the handler has an answer, which is then what is left in the buffer; a frame that the flags refuse gets -1 and stays as it arrived |
| Service.AllAnswered | src/ethernet.c:253-319 | at rest exactly the answers to all arrivals have been sent |
| Service.NoLoops | src/prdk.c:34-106 | when the first `k` bytes of something one host sends have reached a buffer, no host that runs this code answers, provided `k` is at least 35 or the hardware pads the rest with zeros |
| Service.LoopFreeIff | src/prdk.c:38-47 | without padding, something one host sends is answered by no receiver, whatever its buffer held, if and only if its size is at least 35 |
| Ethernet.Driver.constructor | src/ethernet.c:140-166 | the initialization loops produce the initial state of the protocol |
| Ethernet.Driver.Dma | src/ethernet.c:254-256 | between two accesses the observed engine may take any number of steps of the protocol, changing nothing that belongs to the interrupt code |
| Ethernet.Driver.ReadRxStatus | src/ethernet.c:258-261 | a protocol step; finding the descriptor owned means every completed frame has been drained |
| Ethernet.Driver.TakeRxSlot | src/ethernet.c:262-265 | a protocol step; the descriptor always has a buffer, so the null-buffer exit is never taken |
| Ethernet.Driver.HandleFrame | src/ethernet.c:267-272 | a protocol step with the answer of the frame handler: exactly one more frame is drained, and what became of it is the answer of the handler if its descriptor has no error flag and both the first and the last flag, else the frame itself and -1 |
| Ethernet.Driver.EnqueueTx | src/ethernet.c:377-390 | the buffer becomes the next in the transmit ring; the overrun branch is never taken |
| Ethernet.Driver.PacketDone | src/ethernet.c:236-251 | the buffer becomes the last in the receive ring, and control returns to the loop that called; the leak branch is never taken |
| Ethernet.Driver.RxInterrupt | src/ethernet.c:253-279 | terminates with exactly the arrivals drained, in order, and everything queued so far exactly the answers to them; it makes one round per frame that was waiting or arrived meanwhile |
| Ethernet.Driver.TakeTxBuffer | src/ethernet.c:313-314 | the address is null if and only if everything queued has been reaped |
| Ethernet.Driver.TxInterrupt | src/ethernet.c:307-319 | terminates with every sent buffer recycled, in at most as many rounds as buffers were outstanding |
| Ethernet.Driver.Irq | src/ethernet.c:477-487 | one interrupt takes every frame and recycles every buffer that was complete when it began |
| Lcg.OrbitClosedForm | src/pcg_variants.h:514-517 | `n` steps from `x` add the geometric sum times `(a-1)x + c`, modulo the word |
| Lcg.GeoDivisible | src/pcg_variants.h:250-253 | for multipliers 1 mod 4 a power of two divides the sum of `n` terms if and only if it divides `n` |
| Lcg.FullPeriod | src/pcg_variants.h:514-517 | in every width, for a multiplier 1 mod 4 and an odd increment, `n` steps return if and only if `2^w` divides `n` |
| Lcg.EveryStateOncePerPeriod | src/pcg_variants.h:514-517 | every state is visited exactly once per period |
| Lcg.McgStaysOdd | src/pcg_variants.h:490-493 | a multiplicative generator with an odd state stays odd |
| Lcg.McgPeriod | src/pcg_variants.h:490-493 | with a multiplier 5 mod 8 and an odd state, `n` steps return if and only if `2^(w-2)` divides `n` |
| PcgOutput.RxsMXsInstances | src/pcg_variants.h:172-195 | the four multipliers are invertible at their widths |
| PcgOutput.XorShiftInverse | src/pcg_variants.h:184-188 | the xorshift has an explicit inverse, on both sides |
| PcgOutput.OpcodeKept | src/pcg_variants.h:172-195 | the random xorshift leaves the bits that chose its distance, which makes it self-describing |
| PcgOutput.RxsMXsPermutation | src/pcg_variants.h:172-195 | RXS-M-XS at 8, 16, 32 and 64 bits is a permutation with an explicit two-sided inverse |
| PcgOutput.RxsMXs8Bits | src/pcg_variants.h:172-176 | bit by bit, with the shifts, the opcode bits and the multiplier as numbers: the 8-bit output is the only word so related to the state |
| PcgOutput.RxsMXs16Bits | src/pcg_variants.h:178-182 | the same for 16 bits |
| PcgOutput.RxsMXs32Bits | src/pcg_variants.h:184-188 | the same for 32 bits: for some `u`, the state xorshifted by four more than its top four bits, the output is `u * 277803737` xorshifted by 22 |
| PcgOutput.RxsMXs64Bits | src/pcg_variants.h:190-195 | the same for 64 bits |
| PcgOutput.XslRrRrBits | src/pcg_variants.h:226-235 | each bit of both halves of the output in terms of the bits of the state |
| PcgOutput.XshRsBits | src/pcg_variants.h:128-131 | each bit of the half word in terms of the bits of the state |
| PcgOutput.XslRrRrPermutation | src/pcg_variants.h:226-235 | XSL-RR-RR on 64 bits is a permutation with an explicit two-sided inverse |
| PcgOutput.XshRsBalanced | src/pcg_variants.h:128-131 | XSH-RS 32 to 16 returns each value for exactly 2^16 of the 2^32 states |
| Pcg.StatePeriod | src/pcg_variants.h:514-517 | the 32-bit generator returns to a state if and only if 2^32 divides the number of steps |
| Pcg.WordsDiffer | src/pcg_variants.h:1685-1691 | words drawn fewer than 2^32 draws apart differ |
| Pcg.EveryWordOnce | src/prng.c:73-75 | any 2^32 consecutive 32-bit draws return every word exactly once |
| Pcg.SixteenBitEquidistribution | src/prng.c:68-71 | any 2^32 consecutive 16-bit draws return every value exactly 2^16 times |
| Pcg.ThresholdIsRemainder | src/pcg_variants.h:822-840 | `-bound % bound` is 2^32 mod `bound` |
| Pcg.BoundedDrawUnbiased | src/pcg_variants.h:1693-1703 | over a full period, each result below the bound is accepted exactly 2^32 / `bound` times |
| Pcg.RejectionsBounded | src/pcg_variants.h:1693-1703 | at most `threshold` draws in a row are rejected |
| Pcg.StreamIncrement | src/pcg_variants.h:735 | seeding yields an odd increment made of the low 31 bits of the selector |
| Pcg.SeedsDistinguished | src/pcg_variants.h:731-739 | two seedings give the same generator if and only if they agree on the initial state and the low 31 bits of the selector |
| Pcg.StepIsAffine | src/pcg_variants.h:514-517 | one step multiplies by 747796405 and adds the increment, modulo 2^32 |
| Pcg.SeedingInArithmetic | src/pcg_variants.h:731-739 | the seeded increment and state in closed form: `2 * (initseq % 2^31) + 1`, and one step from the sum of the increment and `initstate` |
| Pcg.PcgSetseq32.Step | src/pcg_variants.h:514-517 | one step of the orbit |
| Pcg.PcgSetseq32.Srandom | src/pcg_variants.h:731-739 | the seeded state and increment, also in closed form; the increment is odd for every argument |
| Pcg.PcgSetseq32.NextWord | src/pcg_variants.h:1685-1691 | the word of the old state, which has the bits of the 32-bit law, and one step |
| Pcg.PcgSetseq32.NextHalfWord | src/pcg_variants.h:1017-1023 | the half word of the old state, each bit in terms of the state, and one step |
| Pcg.PcgSetseq32.BoundedRand | src/pcg_variants.h:1693-1703 | returns after at most `threshold + 1 <= bound` draws with the first accepted word modulo the bound |
| Pcg.LcgCycle | src/pcg_variants.h:250-253 | every multiplier of the library gives the full period with any odd increment |
| Pcg.McgCycle | src/pcg_variants.h:652-720 | seeded with `initstate \| 1`, every multiplier of the library gives a cycle of exactly `2^(w-2)` odd states |
| Chaskey.RoundsInverse | src/chaskey.c:21-26 | any number of rounds has a two-sided inverse |
| Chaskey.ChaskeyPermutation | src/chaskey.c:11-32 | for every key Chaskey-8 has a two-sided inverse |
| Chaskey.ShortMessagesDiffer | src/chaskey.c:60-82 | different two-word inputs have different four-word images |
| ChaskeyMachine.RoundOnMachine | src/chaskey.c:21-26 | a round of the specification is the loop body on bit vectors: additions, exclusive ors and rotations spelled with shifts |
| ChaskeyMachine.PermuteOnMachine | src/chaskey.c:11-32 | the specification is the whole function on bit vectors, with its eight rounds written out, for every block and key |
| ChaskeyMachine.PermuteWrittenOut | src/chaskey.c:11-32 | the specification is eight nested rounds between two additions of the key |
| ChaskeyMachine.RoundDifferential | src/chaskey.c:21-26 | for every block, flipping bit 31 of `v2` flips after a round exactly bit 31 of `v0`, bit 31 of `v1`, bit 15 of `v2` and bits 12 and 31 of `v3` |
| ChaskeyMachine.RoundOfOnes | src/chaskey.c:21-26 | the round on the blocks with a single one in `v1` and in `v3` |
| ChaskeyMachine.PermuteOfOne | src/chaskey.c:11-32 | the image of `(1, 0, 0, 0)` under the zero key |
| Machine.ValueOfSum | src/chaskey.c:22 | addition of bit vectors is addition with wrap-around of their values |
| Machine.ValueOfXor | src/chaskey.c:22 | exclusive or of bit vectors is exclusive or of their values |
| Machine.ValueOfRotated | src/chaskey.c:8 | `ROTL` on bit vectors, at the five distances that occur, rotates their values |
| Chaskey.EightRounds | src/chaskey.c:21-26 | the loop on four variables is eight rounds of the specification |
| Chaskey.Chaskey8 | src/chaskey.c:11-32 | rewrites the array with its image under the key |
| Chaskey.Chaskey8Fold | src/chaskey.c:38-58 | the fold of the image of `(v0, v1, 0, 0)`: its first two words in the high half, the others in the low half |
| Chaskey.Chaskey8Wide | src/chaskey.c:60-82 | all four words of the image of `(v0, v1, 0, 0)` |
| SysTick.Cnt64ExactIff | src/systick.h:20-27 | the call returns the true count at the low-word read if and only if the high word it selects has not changed between the two reads |
| SysTick.Cnt64Exact | src/systick.h:14-27 | at most 2^31 ticks between adjacent reads suffice |
| SysTick.Cnt64Torn | src/systick.h:14-27 | one tick more fails at every lap of the low word, on either side |
| SysTick.CallsLinearize | src/systick.h:20-27 | successive calls return ordered counts taken inside the calls, strictly ordered when the low-word reads are |
| Prng.BlocksDiffer | src/prng.c:61-66 | under one key different ticks give different blocks |
| Prng.NoRepeatedBlock | src/prng.c:61-66 | while the clock advances and the key is unchanged, no two calls return the same block |
| Prng.StirringIsBijective | src/prng.c:20-25 | for every stream of hardware words the stirring rounds map the keys one-to-one onto all keys |
| Prng.StirringKeyWords | src/prng.c:22-23 | in round `r` each hardware word is rotated by `2r`, as the sum of a wrapped product and a quotient |
| Prng.Shl32Value | src/prng.c:45 | the left shift of the injection is a product with a power of two, modulo 2^32 |
| Prng.RoundRobin | src/prng.c:39-52 | for every sequence of injections, across counter wrap, successive key writes hit consecutive indices modulo 4 |
| Prng.WrittenInTurn | src/prng.c:39-52 | the writes with their values hit the same indices |
| Prng.KeyIsWritten | src/prng.c:39-52 | after any sequence of injections each key word is the initial one exclusive-or everything written to it: the accumulator at each wrap of the shift, and the hardware words |
| Prng.OnlyListedWrites | src/prng.c:39-52 | key words that no write hits are unchanged |
| Prng.InjectIsShiftedSum | src/prng.c:39-46 | the accumulator is the exclusive or of all inputs, each shifted by its call number modulo 32 |
| Prng.KeyDifferenceInvariant | src/prng.c:39-52 | two runs with equal inputs keep the difference of their keys |
| Prng.Prng.InitKey | src/prng.c:15-27 | the first four hardware words, stirred sixteen times; counters cleared |
| Prng.Prng.StirRound | src/prng.c:21-24 | one round permutes the key under four rotated hardware words |
| Prng.Prng.InitPcg | src/prng.c:29-32 | the PCG is seeded with the halves of a Chaskey word, the increment, which is odd, and the state in closed form |
| Prng.Prng.InjectLowbits | src/prng.c:39-46 | the new key, accumulator and counter are those of one specified injection, and are also written out |
| Prng.Prng.InjectRandom | src/prng.c:48-52 | the same for a hardware word |
| Prng.Prng.UInt64 | src/prng.c:54-59 | the fold of the block at the current clock: the cipher's image of its low and its high word |
| Prng.Prng.UInt64x2 | src/prng.c:61-66 | the four words of that block, two in each half of the result and two in `dst` |
| Prng.Prng.DrawAll | src/prng.c:68-75 | any interleaving of `n` draws of the two widths advances the state by `n` steps, each draw showing its own state |
| Frames.Hton16Involution | src/inline.h:21-26 | `hton16` undoes itself, so it is `ntoh16` as well |
| Frames.LoadField | src/inline.h:21-26 | converting a loaded field gives its wire value, and comparing with a converted constant compares wire values |
| Frames.AddressInOrder | src/inline.h:18-19 | the bytes of an address made by `MkIPv4Net` lie in memory in written order |
| Words.XorBits | src/chaskey.c:16-31 | exclusive or compares its operands bit by bit |
| Bits.Rotate32Bits | src/inline.h:12-15 | bit `i` of a rotation is bit `i - r` modulo 32 of the word, for every count |
| Words.Rotate32Inverse | src/inline.h:12-15 | left and right rotations, spelled as in the code, undo each other for every count |
| Replies.AnsweredIff | src/prdk.c:34-106 | by the bytes of the frame: which frames are answered, with which length, which are left as they are, and how many PCG draws each makes |
| Replies.KindIff | src/prdk.c:34-93 | the three kinds of requests by their bytes |
| Replies.NoReplyToReply | src/prdk.c:34-106 | an answer of which at least 35 bytes are received, or whose rest is padded with zeros, is not answered by this host or any other that runs this code, and is left unchanged |
| Replies.ShortReplyAnswered | src/prdk.c:38-47 | for every shorter answer there are a host and a buffer, agreeing with it on the bytes sent, that is answered |
| Replies.UnansweredIff | src/prdk.c:38-47 | no receiver answers what is sent if and only if at least 35 bytes are sent, that is, unless an echo request with an IP length of at most 20 was answered |
| Replies.ShortEcho | src/prdk.c:38-47 | such a request, its 34-byte answer, and a receiver that answers that |
| Replies.LengthFitsIff | src/prdk.c:47 | the result stays within the buffer if and only if it does not answer an echo request with an IP length above 1504 |
| Replies.AnswersGoBack | src/prdk.c:45-46 | read off the byte tables: every answer goes to the sender's link address, from the host's own |
| Replies.EchoReplyForm | src/prdk.c:38-48 | the echo table in the terms of RFC 792: addresses reversed, type 0, time to live 64, every other byte kept; the result is the link header plus the IP length |
| Replies.ArpReplyForm | src/prdk.c:90-101 | the ARP table in the terms of RFC 826: sender and target swapped, own addresses filled in, opcode reply, every other byte kept |
| Replies.ChargenReplyForm | src/prdk.c:51-82 | the generator table: the fill covers exactly bytes 42 to 1513, in agreement with the result and both length fields; ports and addresses swapped |
| Replies.ChargenHeaders | src/prdk.c:53-61 | every header byte of a generated datagram: lengths 1500 and 1480, time to live 1, source port 19 |
| Replies.DataWords | src/prdk.c:64-81 | after 'T', 'P' and 'C', which draw of which generator each data word is |
| Replies.DataHalves | src/prdk.c:71-73 | after 'p', data bytes `2k` and `2k + 1` are the low and the high byte of the `k`-th narrow draw |
| Replies.DataBlocks | src/prdk.c:76-80 | a 'C' reply holds the generator's blocks, each with its four words |
| Replies.PcgWordsDiffer | src/prdk.c:68-70 | the 368 words of a 'P' reply are pairwise different |
| Replies.CipherBlocksDiffer | src/prdk.c:74-80 | the 92 blocks of a 'C' reply are pairwise different |
| Prdk.Responder.constructor | src/prdk.c:18-19 | the host answers for 192.168.141.123 |
| Prdk.Responder.PacketRxInterrupt | src/prdk.c:21-107 | leaves exactly the specified answer in the buffer, returns its length or -1, and draws exactly the words it fills in; by the bytes of the frame, when it answers, with which result and how many draws |
| Prdk.Responder.AnswerEcho | src/prdk.c:41-47 | each byte of the echo reply |
| Prdk.Responder.AnswerArp | src/prdk.c:95-101 | each byte of the ARP reply |
| Prdk.Responder.AnswerChargen | src/prdk.c:53-82 | each byte of the generated datagram, and the draws made for it |

## Left out

- Register set-up, clocks, PHY and link handling, status decoding in the interrupt handler and all diagnostics: hardware plumbing whose vendor constants are not part of the repository.
- Liveness of the DMA engine and resuming a suspended transmission: the engines are nondeterministic steppers that complete the descriptors they own in ring order and keep the end-of-ring flags.
- RingTheorems.ExactlyOnceInOrder: lengths are as `PacketRxInterrupt` returned them, before the descriptor's size mask is applied (src/ethernet.c:387), because the mask is a vendor constant that is not part of this model.
- Service.SendsAnswers: the same; `Service.NoLoops` does not depend on it, since it holds for any number of bytes that go out.
- A departure is read out of one buffer whatever its size. An engine that is told to send more than 1518 bytes reads on into the next buffer of the pool; `Replies.LengthFitsIff` says exactly which requests get such a result.
- Ethernet.Driver.HandleFrame: the handler runs on a copy of the buffer that is written back, and its call is one step, since the buffer belongs to the CPU throughout; what the hardware generator and the clock deliver is arbitrary. The results about `DmaRing` hold for any handler. The length passed to it comes from a vendor bit field and is a field of the model's status.
- Ethernet.Driver.EnqueueTx: the size mask on the length and the step that resumes a suspended engine are not modelled.
- `EthernetTransmit`, whose body is compiled out, and the other disabled blocks.
- The empty-pool branch as a feature: it is modelled, and proved unreachable. `PACKET_TO_MAINLOOP` is never produced.
- Chaskey.EightRounds: the three C functions repeat this loop; it is written once here.
- Prng.Prng.UInt64x2: the two extra words are written to a two-word array and stored into the frame from there, not through a pointer into it.
- Replies.EchoReplyForm: the returned length is as large as the IP length field says, since the code trusts it; checksums are inserted by hardware.
- Prdk.Responder.PacketRxInterrupt: the hardware generator and the clock readings are input streams, and the diagnostic dump of the frame is left out.
- Preemption inside an injection: the inject functions are atomic here.
- Generator jump-ahead (declared but not defined in the repository), the `unique` and the 128-bit variants, and any statistical or cryptographic strength.
- The MAC address derivation, DHCP, benchmarks and the Python tools: straight-line code without a hard property.
