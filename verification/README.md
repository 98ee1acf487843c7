# beancraft, modelled and proved in Dafny

beancraft is a counter machine over unbounded natural registers whose only operations are
*give*, *take-or-branch* and *stop*.  Around that machine the C program has a loop-folding
optimizer, an arbitrary-precision runtime, a native backend, and an encoding of programs as
numbers with a 62-instruction universal machine that runs them.  This project models those
parts and proves that they agree with one another.

`dafny verify dfyconfig.toml` checks everything.

## How the proofs hang together

One machine (`Machine.dfy`) underlies everything: a program is a sequence of operations, raw
ones and the seven folded ones, over a bank of naturals; `Next` is one move.  Programs are
compared by stuttering simulation: `FastHalts` and `SlowHalts` turn a step-by-step
correspondence into "one halts if and only if the other does, with related results, the fast
one in no more moves".

1. **The optimizer.**  `Loops.dfy` states each of the seven idioms as a declarative shape of
   raw code and proves that running the raw loop is the same as the one folded move, repeated
   destinations and the never-ending division by an empty bin included.  `Detect.dfy` holds
   the detectors as the loops and guards they are, each proved to answer *if and only if* a
   private loop of its shape starts there.  `Written.dfy` writes every folded operation out as
   its raw loop and proves that each such loop is found, up to the limits of the source, and
   nothing else; `Devices.dfy` that the device check looks at exactly the registers the loop
   names.  `Folding.dfy`, `Threading.dfy` and
   `Renumbering.dfy` prove what the passes do; `Packed.dfy` and `Optimizer.dfy` hold the
   packed records with their shared operand pool and the five passes that rewrite them in
   place.  `Optimizer.OptimizerCorrect` is the result, and `OptimizedUnique` says that the
   relation it is stated with determines the optimized program.  `NilRegister.dfy` proves
   what is left of it when the no-op register does not start empty, and `NilValue.dfy` what
   that register itself then holds; `Thorough.dfy` that no dead code and no jump to a no-op
   remains, here or in the encoder's cleaning.
2. **The runtime.**  `Limbs.dfy`, `Bits.dfy`, `Bignum.dfy`, `LongDivision.dfy` and
   `Decimal.dfy` model tagged words over heap limb arrays, changed in place.  The canonical
   form is part of every contract, because comparison and the zero test rest on it.
3. **The interpreter.**  `RegFile.dfy` is the bank of words, no two of which share limbs;
   `Roles.dfy` proves that what the optimizer emits keeps the registers of one operation
   apart, which the in-place operand handling needs; `Interp.dfy` steps packed instructions
   and runs them under a cap; `Checking.dfy` is the comparison of `-O0` with `-O`, its
   verdict proved for any registers and any cap.
4. **The native backend.**  `Qbe.dfy` emits basic blocks line by line, gives blocks a
   semantics of their own, and proves lockstep with the interpreter for every step cap;
   `Native.dfy` runs the same blocks on the bank of tagged words.
5. **Lowering.**  `PtrMaps.dfy` is the open-addressing table, `Lowering.dfy` the translation
   from statements that makes every jump land.
6. **The tally machine.**  `Primes.dfy` and `Banks.dfy` give primes, Euclid's lemma and banks
   as products of prime powers, `PrimeDensity.dfy` that enough of them are small;
   `Tallies.dfy` the bit string of a program; `Cleaning.dfy` and `Layouts.dfy` the encoder,
   `Shortest.dfy` that no other choice of primes is shorter; `Tally.dfy` its arithmetic.
   `TallySource.dfy` holds `examples/tally.bc` line by line and proves that it lowers to the listing in
   `Universal.dfy`, which proves what each stretch of it does; its loops are taken in one go
   by the theorems of part 1.  `Universality.dfy` proves that it runs every encoded program.
   `Outliers.dfy` holds lowered programs outside the hypotheses.  `EndToEnd.dfy` joins
   the parts, and `Emulation.dfy` runs them all: a program encoded, run on the optimized
   universal machine on words, and its registers decoded.

## Hypotheses, and what happens without them

* *Nothing gives `:nil`, and it starts empty.*  Source text cannot name it
  (`Lowering.LoweredIsGood`), but a `:nil=VALUE` argument can set it.  `NilValue.NilMatters` is
  a lowered program (`Outliers.NilMattersLowers`) for which one bean in it makes the optimized
  program end differently, and `Checking.NilMismatch` the mismatch `--check` then reports.
  The difference is `:nil` itself and nothing else, for every program whose takes of `:nil` go
  to one place (`NilRegister.OptimizerAnyNil`); the parser and the loader make no others, and
  lowering keeps them so (`Lowering.LoweredPlain`, `EndToEnd.SourceAnyNil`).
  `NilValue.NilAgrees` says exactly when even `:nil` agrees, `NilValue.NilAgreesAnywhere` for
  which programs it always does.
* *The entry is the lowest instruction the tally encoder keeps.*  The encoder assumes it
  without looking.  `Cleaning.EntryFirst` says exactly when the entry ends up first,
  `Outliers.EntryMatters` is a lowered program for which it does not and whose cleaned form
  computes something else; started at the entry's new position the cleaned form is right for
  every program (`Cleaning.CleaningFromEntry`).
* *Trailing stops.*  The encoder drops them before it sizes the table of field offsets.
  `Cleaning.TrailingStops` says exactly when every jump still has an entry, and
  `Outliers.StopsMatter` is a lowered program with a jump beyond it.  The documentation promises
  that a jump past the end means stop, so where the code would read beyond the table the model
  reads the end offset (`Layouts.ReadOffset`); `Tally.TallyRuns` holds for all programs under
  that reading.
* *Every jump lands on an instruction.*  The backend has no block for any other place.  Lowering
  guarantees it (`Lowering.LoweredIsGood`) and the optimizer keeps it (`Roles.OptimizedLanded`).
* *Limbs are 64 bits, immediates end at 2^62 - 1, carries are modelled with their wrap-around;
  counts, indices and lengths are unbounded.*  The one counter whose width shows, the bit
  counter of long division, is proved right below 2^26 limbs and wrong from there on
  (`LongDivision.Divmod`); the interpreter is proved with either counter
  (`Interp.InterpState.Run`).
* *The scratch array of the DIVBIN detector* has 33 slots and is filled before the fan-out
  check.  `Detect.FanOutIsRoom` says that the check accepts exactly what fits,
  `Detect.RunTooWide` which runs are too many for it when it is filled.
* *A table of fewer than four slots can fill up* (`PtrMaps.RoomLeft`); the program starts at 64.

A block, a word of a register and a step are written down as values; the methods that change
limb arrays, register banks, instruction records, tables and worklists change them in place.

## Model

| member | source | states |
|---|---|---|
| Optimizer.OptimizerCorrect | src/opt.c:620-777 | For every raw program in which nothing gives `:nil` and every bank with `:nil` empty: the optimized program halts exactly when the source does, with equal registers and after no more moves; divergence is preserved in both directions |
| NilRegister.OptimizerAnyNil | src/opt.c:392-465 | For every raw program whose takes of `:nil` go to one place, and every bank, `:nil` holding anything: the optimized program halts exactly when the source does, after no more moves, with the same value in every register but `:nil`, which may have kept more |
| NilRegister.FoldUnread | src/opt.c:36-45 | No foldable loop depends on `:nil`: a take of it that goes to one place would leave a private loop into the loop's own inside |
| NilValue.NilAgrees | src/opt.c:392-414 | Of two runs that halt, the raw one has taken from `:nil` at every no-op it met and the optimized one at most at its first move; `:nil` itself agrees exactly when the first move made the only such take, or had already emptied it |
| NilValue.NilAgreesAnywhere | src/opt.c:392-414 | If no jump from the first instruction or from what it leads to goes to a no-op, `:nil` agrees from every bank |
| NilValue.ComingBackMatters | src/opt.c:392-414 | A program whose only no-op is its first instruction, jumped back to, for which `:nil` does not agree |
| NilValue.ThreadedToEnds | src/opt.c:427-463 | After the in-place pass every target whose chain of no-ops ends has been sent to that end, however many no-ops on the way were half rewritten when it was |
| NilValue.NilMatters | src/opt.c:416-424 | A program, started with one bean in `:nil`, that ends with `:nil` empty while its optimized form keeps the bean |
| Outliers.NilMattersLowers | src/parser.c:318-325 | That program is what a give and a label on a line of its own lower to |
| Optimizer.IrOptimize | src/opt.c:620-777 | The five passes, in place on the packed program, produce a program in the relation `Optimized` to the source (or the source itself at the plain level); `patternsFound` is the number of folds, final count plus `instructionsRemoved` the source length, and the operand pool never exceeds it |
| Optimizer.OptimizedUnique | src/opt.c:620-777 | The relation the passes are proved against leaves nothing open: a program has exactly one optimized form |
| Optimizer.DetectAll | src/opt.c:649-666 | Pass 1 returns the folds in order, each the detector's answer where it starts, none over an instruction that names a device register; an instruction is left alone only if it starts no loop, or the loop it starts names a device register; the removed count is exact |
| Optimizer.GreedySame | src/opt.c:649-666 | Two greedy choices of folds over one program are equal |
| Devices.PatternNames | src/opt.c:649-655 | The registers a detected pattern carries, on which the device check is made, are exactly the registers that its raw loop names |
| Thorough.NoDeadCode | src/opt.c:506-563 | Every instruction of an optimized program can be come to: any set of them that holds the first and whatever its members jump to holds them all |
| Thorough.NoJumpToNoOp | src/opt.c:392-465 | A jump of an optimized program goes to a no-op only if the no-ops from there on go round for ever, for every program whose takes of `:nil` go to one place |
| Optimizer.IrOptProgram.Emit | src/opt.c:593-597 | Appending an instruction with its operands at the end of the shared pool appends that operation to the program the records stand for |
| Optimizer.IrOptProgram.EmitAll | src/opt.c:668-736 | Pass 2 emits each fold at its start and each surviving instruction once, in order, and records where every source index lands |
| Optimizer.IrOptProgram.RemapTargets | src/opt.c:738-767 | Pass 3 sends every target of every record through the table once, DIVMOD exits in the shared pool included |
| Optimizer.IrOptProgram.ThreadJumps | src/opt.c:439-463 | Pass 4 is the slot-by-slot rewriting `ThreadFrom` of the program as it changes underneath it |
| Optimizer.IrOptProgram.MarkReachable | src/opt.c:506-530 | The fixpoint sweep marks exactly the instructions a chain of jumps from instruction 0 reaches |
| Optimizer.IrOptProgram.RemoveDead | src/opt.c:506-563 | Pass 5 keeps exactly the reachable instructions, in order, with every target renumbered exactly once; count plus removed is unchanged |
| Optimizer.IrOptProgram.SetSlot | src/opt.c:439-463 | Writing one jump target in place, wherever the record keeps it, changes that target of that operation and nothing else in the program |
| Loops.FoldRuns | src/opt.c:377-390 | Run raw from any registers, any loop of an accepted shape ends at the fold's exit with exactly the fold's one-move effect; with an empty divisor a DIVBIN nest never halts |
| Loops.DivBinRuns | src/opt.c:293-309 | A DIVBIN nest on P > 0 exits with Q += R div P, REM = R mod P, each X_i += R per mention, P = P - REM - 1, R = 0 |
| Loops.DivBinForever | src/interp.c:180-180 | A DIVBIN nest on P = 0 never exits, which is why the fold spins |
| Loops.MulAddRuns | src/opt.c:151-158 | A multiply loop, with or without the per-round clear of T, ends at the fold's exit with the closed form C*S + (C-1)*T in each accumulator |
| Loops.RoundEffect | src/interp.c:130-136 | One round of the multiply loop followed by the closed form of the remaining C - 1 rounds is the closed form of C rounds |
| Loops.CopyRuns | src/opt.c:251-258 | A transfer fan-out followed by the transfer back is one COPY, repeated destinations counted once per mention |
| Loops.DivModRuns | src/opt.c:98-107 | A chain of k takes followed by gives ends with the quotient in each destination per mention and leaves by the exit of the remainder |
| Loops.TransferRuns | src/opt.c:82-96 | A transfer loop empties its source into each destination once per mention and ends at its exit |
| Loops.IsZeroRuns | src/opt.c:227-248 | A take that is given straight back is a test for zero that leaves the register alone |
| Loops.ZeroRuns | src/opt.c:48-62 | A self-looping take empties its register and leaves by its zero branch |
| Folding.FoldRefines | src/opt.c:36-45 | Replacing disjoint private loops by their folds in place keeps every outcome, saves moves, and leaves no jump into a fold's interior |
| Folding.FoldedClosed | src/opt.c:21-45 | No surviving jump and no fold exit lands strictly inside a folded loop, so the table entries of covered instructions are never used |
| Folding.ExitIsRawTarget | src/opt.c:36-45 | Every exit of a fold is a jump target of the raw code it covers, so privacy of one region protects it from the exits of the others |
| Detect.DetectPattern | src/opt.c:377-390 | The detector returns the first kind, in the fixed order, for which a private loop of that shape starts here, and nothing exactly when there is none |
| Detect.DetectDivBin | src/opt.c:310-375 | Found if and only if a private DIVBIN nest with five distinct roles starts here; the slots of the 33-slot scratch array written on the way are counted, and an accepted nest never wrote past the last |
| Detect.FanOutIsRoom | src/opt.c:351-359 | The fan-out check, made after the scratch array has been filled, accepts exactly the runs whose registers fit the 33 slots of that array |
| Detect.RunTooWide | src/opt.c:351-359 | Nests whose run has 31 or 32 gives pass every check made before the array is filled and write past its last slot; narrower ones do not |
| Detect.DetectMulAdd | src/opt.c:159-228 | Found if and only if a private multiply loop with distinct roles starts here |
| Detect.TryUpgradeToCopy | src/opt.c:259-291 | Upgrades a transfer to COPY if and only if the two transfers together form a private copy loop |
| Detect.DetectDivMod | src/opt.c:108-149 | Found if and only if a private region starts here that is a chain of 2 to 32 takes of one register, not followed by another take of it, with or without a run of gives leading back |
| Detect.DetectTransfer | src/opt.c:82-96 | Found if and only if a private transfer loop starts here |
| Detect.DetectIsZero | src/opt.c:234-248 | Found if and only if a private zero test starts here |
| Detect.BodyIsPrivate | src/opt.c:36-45 | True exactly when no instruction outside the range, and none of the exits, goes strictly inside it |
| Detect.KindUnique | src/opt.c:377-390 | One start and one kind admit at most one fold, so the detector's answer is determined by the program |
| Written.FindsDivBin | src/opt.c:310-375 | Wherever the instructions of a DIVBIN nest stand, for any five distinct roles and any up to 29 further destinations, the remainder anywhere among them, entered only at the top, the detector answers that operation over that range and nothing else |
| Written.FindsMulAdd | src/opt.c:159-228 | The same for every multiply loop with distinct registers and up to 30 accumulators, with the clear of T or without |
| Written.FindsCopy | src/opt.c:259-291 | The same for every copy loop of up to 31 destinations, the temporary anywhere among them |
| Written.FindsTransfer | src/opt.c:82-96 | The same for every transfer loop of 1 to 32 destinations other than its source, unless a copy starts with it, which takes an exit to the next instruction |
| Written.FindsDivMod | src/opt.c:108-149 | The same for every chain of 2 to 32 takes with any exits and up to 32 destinations other than its register, not followed by another take of it |
| Written.FindsIsZero | src/opt.c:234-248 | The same for every take that is given straight back |
| Written.FindsZero | src/opt.c:48-62 | The same for every take that goes back to itself, unless a DIVBIN nest starts with it, which takes an exit to the next instruction |
| Written.FoundStands | src/opt.c:377-390 | Nothing else is found: whatever the detector answers is one of those loops, within those limits, its instructions standing there and entered only at the top |
| Passes.RefinesTrans | src/opt.c:620-777 | Preserving outcomes composes across passes |
| Passes.SimulationRefines | src/opt.c:620-777 | A stuttering simulation from instruction 0 preserves halting, registers and the bound on moves |
| Machine.SlowHalts | src/main.c:470-513 | Under a stuttering simulation, whenever the slow program halts the fast one does, in no more moves, with a related result |
| Machine.FastHalts | src/main.c:470-513 | Under a stuttering simulation, whenever the fast program halts the slow one does, with a related result |
| Threading.ThreadRefines | src/opt.c:392-414 | Moving targets along chains of `take :nil X X` keeps every outcome as long as nothing gives `:nil` |
| Threading.ThreadFromThreaded | src/opt.c:439-463 | In-place threading, each jump followed through targets some of which are already rewritten (half-rewritten cycles included), still moves every target only along empty takes of the original program |
| Threading.ThreadSettles | src/opt.c:427-437 | As many hops as instructions suffice: a threaded target is no longer a live no-op, unless the no-ops go round in a circle for ever |
| Renumbering.RenumberRefines | src/opt.c:532-563 | Keeping a set of instructions that control never leaves, renumbered, keeps every outcome and costs nothing |
| Renumbering.ReachClosed | src/opt.c:506-530 | What instruction 0 reaches is closed under jumps |
| Renumbering.RenumberedUnique | src/opt.c:532-563 | The renumbered program is determined by the kept set |
| Packed.DecodeEncode | src/opt.c:593-613 | A record written with its operands at the end of the pool reads back as the operation |
| Packed.PackAppend | src/opt.c:583-597 | Operand slices stay disjoint and in order as instructions are appended, and old slices still read the same |
| Packed.PackSetSlot | src/opt.c:439-463 | Rewriting a DIVMOD exit in the shared pool is seen by that instruction only |
| Roles.OptimizedRunnable | src/opt.c:331-360 | In everything the optimizer emits, the registers a fold reads late are none of those it overwrites early, so working through the operands in place is safe |
| Roles.ShapeRoles | src/opt.c:186-222 | Whatever a detector accepts has its roles on distinct registers |
| Roles.OptimizedLanded | src/opt.c:738-777 | If every jump of the source lands on an instruction, so does every jump of the optimized program |
| Bignums.WordTells | include/beancraft/bignum.h:42-66 | With limbs at even addresses the tag bit tells immediates from heap numbers, untagging inverts tagging, and the word 1 is exactly zero |
| Bignums.ZeroTest | include/beancraft/bignum.h:48-51 | On canonical numbers the word comparison decides whether the value is zero |
| Bignums.FromU64 | src/bignum.c:48-58 | Every 64-bit value is represented canonically: immediate exactly up to 2^62 - 1 |
| Bignums.FormIs | include/beancraft/bignum.h:8-27 | A number has one form: immediate exactly up to 2^62 - 1, otherwise as few 64-bit limbs as hold it, each limb the digit of its place, least significant first |
| Bignums.Finish | src/bignum.c:429-437 | Dropping zero limbs and demoting keeps the value and restores canonical form |
| Bignums.Inc | src/bignum.c:93-185 | Adds exactly one across promotion, carry chains and growth, and stays canonical |
| Bignums.Dec | src/bignum.c:130-197 | Takes exactly one if the value is positive and says whether it was; borrow chains and demotion keep it canonical |
| Bignums.Add | src/bignum.c:210-284 | The exact sum in fresh memory, canonical |
| Bignums.AddLimbs | src/bignum.c:252-283 | The limb loop computes the exact sum; the two-comparison carry formula is right for every pair of limbs |
| Bignums.CarryFormula | src/bignum.c:262-272 | The wrapped sum and its two overflow comparisons are the sum's low word and carry |
| Bignums.AddInto | src/bignum.c:374-385 | The destination becomes the exact sum and the source is untouched |
| Bignums.Mul | src/bignum.c:286-372 | The exact product in fresh memory, canonical, both operands untouched |
| Bignums.MulLimbs | src/bignum.c:340-361 | Schoolbook multiplication row by row: every partial product fits 128 bits and the limb a row's carry goes to is still zero |
| Bignums.WideFits | src/bignum.c:349-359 | limb * limb + limb + carry stays below 2^128 and its high word is a valid carry |
| Bignums.DivmodSmall | src/bignum.c:387-409 | In-place division by a word: x = q*k + r with r < k, canonical |
| Bignums.Sub | src/bignum.c:460-475 | The exact difference, zero when it would be negative, in fresh memory, canonical |
| Bignums.LimbsSubInPlace | src/bignum.c:450-458 | The borrow loop computes the exact difference and the final borrow is zero |
| Bignums.BorrowFormula | src/bignum.c:450-458 | The wrapped difference and its overflow comparisons are the difference's low word and borrow |
| Bignums.Cmp | src/bignum.c:526-555 | Length comparison, then limbs from the top, decides the order of the values; rests on canonical form |
| LongDivision.Divmod | src/bignum.c:477-520 | For every d > 0, with the 32-bit bit counter or a wide one: x0 = q*d + r if and only if the counter covers the division (wide, or d small, or x0 < d, or x0 has fewer than 2^26 limbs); r < d in any case, both canonical and sharing no limbs, d unchanged |
| LongDivision.DivideBits | src/bignum.c:503-517 | Shift-subtract from any starting bit divides exactly the bits below it: (x mod 2^bits) = q*d + r with r < d, the running remainder always fitting one limb more than d |
| LongDivision.CounterCovers | src/bignum.c:504-504 | The counter covers a number without a zero limb on top if and only if it has fewer than 2^26 limbs |
| LongDivision.LimbsShow | src/bignum.c:429-437 | A canonical number has fewer than 2^26 limbs if and only if its value fits that few |
| LongDivision.DividingStep | src/bignum.c:503-517 | Shifting one bit in and conditionally subtracting d keeps the division invariant one bit further down |
| LongDivision.RemainderFits | src/bignum.c:503-511 | Twice a remainder below d plus a bit fits dn + 1 limbs |
| LongDivision.ShiftIn | src/bignum.c:505-511 | The limb shift computes 2r + bit exactly, no bit falling off the top |
| Decimal.ToString | src/bignum.c:581-635 | The decimal text of the value: as few characters as have room for it and at least one, the one at place i having the code 48 + value / 10^i mod 10; the digits are collected right to left in a buffer of 20 per limb that never overflows |
| Decimal.DigitsPlaces | src/bignum.c:581-635 | The digits of a number, by character code and place, for every number |
| Decimal.FromString | src/bignum.c:637-676 | If all codes are between 48 and 57, the sum over places i of (code - 48) * 10^i, so that each character is the digit of its place; zero otherwise; leading zeros are skipped |
| Decimal.ReadsPlaces | src/bignum.c:637-676 | What a string reads as, by character code and place, for every string |
| Decimal.ReadWritten | src/bignum.c:581-676 | Reading what was written gives the number, for every number |
| Decimal.WrittenRead | src/bignum.c:581-676 | Writing what was read gives the string, for every digit string without a superfluous leading zero |
| Decimal.WriteThenRead | src/bignum.c:581-676 | The two routines themselves round-trip on every number |
| Decimal.ReadThenWrite | src/bignum.c:581-676 | The two routines themselves round-trip on every canonical digit string |
| Decimal.DigitsFit | src/bignum.c:607-610 | A number of n limbs has at most 20n decimal digits |
| RegFiles.RegFile.IncAt | src/interp.c:77-84 | Register i gains one, the others keep their values, and no two registers share limbs afterwards |
| RegFiles.RegFile.DecAt | src/interp.c:86-95 | Register i loses one if it was positive, and the answer says which |
| RegFiles.RegFile.TransferAt | src/interp.c:106-116 | The reused source word stays valid while it is added into each destination, once per mention, and is then cleared |
| RegFiles.RegFile.CopyAt | src/interp.c:197-212 | Fan-out of the source word, then the temporary added back into the source and cleared, in that order |
| RegFiles.RegFile.DivModAt | src/interp.c:118-128 | Quotient fanned out from the divided word itself, remainder returned, register cleared |
| RegFiles.RegFile.MulAddAt | src/interp.c:130-164 | Both forms of the multiply fold, including the untouched case C = 0, compute the machine's effect |
| RegFiles.RegFile.DivBinAt | src/interp.c:171-195 | Long division of one register by another, the remainder moved into REM without sharing, computes the machine's effect whenever the bit counter covers the division |
| RegFiles.Attach | src/interp.c:189-192 | Putting a number that shares nothing into an emptied register keeps all registers' limbs separate |
| Interp.InterpState.Step | src/interp.c:66-221 | One step on tagged words is one move of the machine on naturals, unless it is a division the 32-bit bit counter does not cover; a `stop` counts as a step, running off the end does not |
| Interp.InterpState.Run | src/interp.c:223-228 | The loop never passes the cap; if the bit counter covers every division the machine comes to, it halts exactly when the machine does within fewer moves than the cap, and otherwise ends after exactly cap moves |
| Interp.NarrowRunFits | src/bignum.c:477-520 | With the 32-bit bit counter a run is covered exactly if in every division it comes to the divisor is empty, immediate or above the dividend, or the dividend has at most 2^26 - 1 limbs |
| Interp.OutcomeUnique | src/interp.c:223-228 | Stepping under a cap has one outcome: step count and configuration are determined |
| Checking.Check | src/main.c:470-533 | The -O0 versus -O comparison of any raw program from any registers under any cap: agreement names the step counts of two halting runs with equal registers, a mismatch the number of registers in which two such runs differ, and it is inconclusive exactly when one of them does not rest; where nothing gives `:nil` and it starts empty there is no mismatch, where every take of `:nil` goes to one place only `:nil` can be reported, and either way the -O run is never cut off when the -O0 run was not |
| Checking.RunBoth | src/main.c:493-528 | Two interpreters run under one cap: agreement gives each run's own counter and says that both halt with equal registers, a mismatch counts the registers that differ, and inconclusive says of each run whether it halts in fewer moves than the cap |
| Checking.JudgedOnce | src/main.c:496-532 | Two runs have one verdict |
| Checking.JudgedMeans | src/main.c:493-528 | What each verdict says of the halting runs of the two programs |
| Checking.NilMismatch | src/main.c:515-524 | Started with one bean in `:nil`, checking the program of `NilMatters` under any cap above 2 reports one mismatch |
| Checking.BothRest | src/main.c:515-527 | If both levels come to rest they agree on every register (or every one but the excepted one) and -O took no more steps |
| Checking.RestsSooner | src/main.c:496-513 | Under any cap, if the -O0 run comes to rest so does the -O run |
| Checking.CutOff | src/main.c:496-513 | A run still going at the cap shows that the program does not rest within it |
| Qbe.Lockstep | src/qbe.c:80-437 | Under every cap the emitted block graph of a program whose jumps land ends with a step count and registers if and only if stepping the program does |
| Qbe.QbeGenerateOpt | src/qbe.c:234-437 | The emitter writes exactly the blocks of the program the packed records stand for |
| Qbe.QbeGenerate | src/qbe.c:192-232 | The plain emitter writes exactly the blocks of the raw program |
| Qbe.CheckGoes | src/qbe.c:80-91 | The step check leaves for the exit exactly when the counter has reached the cap, before counting the step |
| Qbe.CascadeGoes | src/qbe.c:328-335 | The comparison cascade jumps to the exit the remainder selects, for every remainder below k |
| Qbe.DivModGoes | src/qbe.c:312-337 | A DIVMOD's blocks have the machine's effect and leave by the remainder's exit |
| Qbe.SimpleGoes | src/qbe.c:366-384 | Calls and two-way jumps, DIVBIN's self-jump on an empty divisor included, have the machine's effect and target |
| Qbe.IsZeroGoes | src/qbe.c:386-395 | The block loads the register, compares, and branches as the machine does; that comparing words decides it is `Native.Process.ExecLine` |
| Qbe.TransferGoes | src/qbe.c:293-310 | The unrolled additions of the word loaded once have the fan-out's effect |
| Qbe.CopyGoes | src/qbe.c:397-421 | Two loads, the second after the fan-out, have the copy's effect |
| Qbe.InstructionGoes | src/qbe.c:268-428 | Every instruction's blocks count one step, have its effect and lead to its target's step check |
| Qbe.EmittedDistinct | src/qbe.c:85-91 | No two emitted blocks share a label |
| Qbe.ExitOnce | src/qbe.c:121-126 | A run of the blocks reaches the exit with one result only |
| Native.Process.Run | src/qbe_runtime.c:22-98 | Run on tagged words in place, loads being the register's own word and the zero test a comparison with the word for zero, the emitted blocks do on the bank exactly what they do on values, no two registers sharing limbs afterwards |
| Native.RunCompiled | src/qbe.c:234-437 | The same run ends, under every cap, with the step count and the registers that interpreting the instructions ends with |
| Native.Process.ExecLine | src/qbe_runtime.c:22-98 | One line on words is that line on values; an added or compared word is still the word of the register it was loaded from |
| Native.EmittedFits | src/qbe.c:293-421 | In every block emitted for operations whose registers are apart, a loaded word is added or compared only while its register has not been written, and never into that register |
| EndToEnd.CompiledAgrees | src/main.c:412-446 | Whenever the raw program comes to rest under a cap, the optimized program compiled to blocks ends under it with the same registers and no more steps |
| EndToEnd.SourceToNative | src/ir.c:222-330 | The same starting from statements, for anything that lowers and gives no no-op register |
| EndToEnd.SourceAnyNil | src/main.c:83-111 | From statements whose no-ops go to one place, whatever an argument sets `:nil` to: optimizing changes no outcome and no register but `:nil` |
| Lowering.Lower | src/ir.c:222-330 | A label declared twice is reported exactly when there is one; otherwise a label that something jumps to and nothing declares is, exactly when there is one; otherwise each statement becomes its instruction with resolved jumps over distinct names, the registers the named devices need behind them, and a halt is appended |
| Lowering.AddDevices | src/ir.c:307-318 | What comes behind the registers named is what their devices depend on, all of it and nothing else; what those bring in is not followed |
| Lowering.DepsInOrder | src/ir.c:307-318 | Those come without repetition, in the order in which they are first depended on |
| Lowering.FirstMentions | src/ir.c:122-139 | Registers are numbered in order of first mention: register k is named first by a statement before which neither it nor any later register is named |
| Lowering.ResolveJump | src/ir.c:162-220 | Succeeds exactly when the jump is not to a label nothing declares; a label gives a statement that carries it, `init` the first and `done` the last instruction, and every other jump, `self`, `next` and `prev` being the offsets 0, 1 and -1, the instruction nearest to where it aims |
| Lowering.LoweredJump | src/ir.c:162-220 | The same of every jump of every instruction of a lowered program |
| Lowering.LoweredKinds | src/ir.c:239-330 | Each statement becomes the instruction of its kind on the register of its name, a halt stands behind the last, and no two registers share a name |
| Lowering.LoweredIsGood | src/ir.c:239-330 | Every jump of a lowered program lands on an instruction, every register it names exists, and if no statement gives `:nil` nothing does |
| Lowering.LoweredPlain | src/parser.c:318-325 | If every take of `:nil` among the statements has one jump, so has every take of it in the lowered program |
| Lowering.LowersUnique | src/ir.c:222-330 | The lowering of a program is determined, register numbers by first mention included |
| Lowering.CollectLabels | src/ir.c:225-237 | The label table holds every label with its address, or a label declared twice is named |
| Lowering.FindOrAdd | src/ir.c:122-139 | A name keeps the index it was first given, names stay distinct |
| PtrMaps.PtrMap.Put | src/ir.c:110-118 | The table becomes the map with the key set, doubled first if and only if it is three quarters full; the count is the number of keys |
| PtrMaps.PtrMap.Get | src/ir.c:87-93 | Returns the value last put for the key, or absent; the probe ends because a free slot remains |
| PtrMaps.PtrMap.Grow | src/ir.c:97-108 | Rehashing keeps the map, doubles the capacity, and every entry passes the load check, so it never grows again |
| PtrMaps.PtrMap.Probe | src/ir.c:110-118 | For any hash the probe ends at the key's slot or at a free slot that shows the key absent |
| PtrMaps.AbsentAt | src/ir.c:87-93 | A free slot met before the key shows the key is nowhere in the table |
| PtrMaps.StoreOk | src/ir.c:114-117 | Storing a key where its probe ended keeps every other key's probe path unbroken |
| PtrMaps.RoomLeft | src/ir.c:110-111 | The load check leaves a free slot after one more entry if and only if the capacity is at least four |
| Primes.TallyNthPrime | src/tally.c:5-13 | Terminates for every n and returns the prime below which the set of primes has exactly n members |
| Primes.NthUnique | src/tally.c:5-13 | The number of smaller primes tells primes apart, so the contract of the search fixes its result |
| Primes.TrialDivision | src/tally.c:10-10 | Having no divisor up to the square root makes a number prime |
| Primes.PrimeAbove | src/tally.c:5-13 | There is a prime above every number, which is why the search ends |
| PrimeDensity.NthPrimeFits | src/tally.c:5-13 | A prime with fewer than 2^32 smaller primes is below 2^40: whatever a 32-bit count of registers asks for fits a 64-bit word |
| PrimeDensity.PrimesMany | src/tally.c:5-13 | 2^(n-1) is at most n to the number of primes up to n |
| PrimeDensity.LeibnizDivides | src/tally.c:5-13 | What all of 1 to n divide, n times every binomial coefficient of n - 1 divides too |
| Primes.EuclidsLemma | examples/tally.bc:15-19 | A prime dividing a product divides a factor |
| Banks.BankGive | examples/tally.bc:15-18 | One more bean in a register multiplies the bank by the register's prime |
| Banks.BankTake | examples/tally.bc:15-19 | A register holds a bean exactly when its prime divides the bank, and dividing takes the bean out |
| Banks.BankDetermines | src/tally.c:160-181 | Two banks are equal if and only if every named register has the same value |
| Banks.ReadOneWay | src/tally.c:167-181 | Two factorizations that leave no layout prime behind agree on every exponent and on the rest |
| Cleaning.CleaningCorrect | src/tally.c:21-73 | Threading, dropping what the entry cannot reach, renumbering and trimming trailing stops keep every outcome in no more moves, when the entry is the lowest instruction kept |
| Cleaning.CleaningFromEntry | src/tally.c:30-69 | For every program, the cleaned form started at the entry's new position halts exactly when the source does, with the same registers and after no more moves |
| Cleaning.EntryFirst | src/tally.c:55-60 | The entry's new position is 0 if and only if nothing reachable comes before it |
| Thorough.CleanedTight | src/tally.c:30-73 | The cleaned program ends with no stop, and everything in it can be come to from where the entry stands |
| Thorough.CleanedNoJump | src/tally.c:21-34 | A jump of the cleaned program goes to a no-op only if the no-ops from there on go round for ever, for every program whose takes of `:nil` go to one place |
| Outliers.EntryMatters | src/tally.c:55-57 | A lowered program whose entry is not the lowest instruction kept: its cleaned form started at the first instruction ends with different registers |
| Cleaning.TrailingStops | src/tally.c:71-82 | After trimming, every jump has an entry in the offset table if and only if no stop was dropped, or one was and nothing jumps past it |
| Outliers.StopsMatter | src/tally.c:71-82 | A lowered program with two trailing stops, both jumped to: one jump of its cleaned form lies beyond the offset table |
| Layouts.LayOut | src/tally.c:30-111 | The layout holds the cleaned program, its exact field offsets, distinct primes for exactly the registers it names, and the exact length of its bit string; the more often a register is named the smaller its prime, ties to the lower index; with at most 2^32 registers every prime fits a word |
| Layouts.MarkLive | src/tally.c:38-53 | The worklist marks exactly what the threaded entry reaches, and its stack never overflows |
| Layouts.Clean | src/tally.c:35-73 | The kept instructions, in order, threaded and renumbered, without the stops at the end |
| Layouts.SortByMentions | src/tally.c:93-97 | The insertion sort keeps the registers and orders them by falling mention count, stably |
| Layouts.AssignPrimes | src/tally.c:98-98 | The i-th register served gets the i-th prime, the others none |
| Layouts.AssignedOk | src/tally.c:84-99 | Registers share no prime, and a register has one if and only if the program names it |
| Layouts.BitCount | src/tally.c:101-110 | The count is the total length of all tallies |
| Shortest.ShortestEncoding | include/beancraft/tally.h:12-16 | The encoding is as short as the program allows: no other way to give the named registers primes of their own has a shorter bit string |
| Shortest.FirstAreLeast | src/tally.c:84-98 | k different primes add up to at least the first k primes |
| Shortest.PaidByRegister | src/tally.c:101-110 | What the primes cost the bit string is the sum over registers of mentions times prime |
| Tallies.ReadFirst | src/tally.c:113-123 | Halving a number down to its first zero bit reads its first tally and leaves the number of the rest |
| Tallies.SkipTallies | examples/tally.bc:5-13 | Skipping k tallies of a number leaves the number of the remaining ones |
| Tallies.JumpLands | src/tally.c:75-82 | Skipping the field offset of an instruction lands on its first field |
| Tallies.FieldsAt | src/tally.c:125-145 | The fields of every instruction, where they stand among all: twice the prime, one more for a take, zero for a stop, and for each target how many fields come before it, all of them for a target past the end |
| Tallies.PastTheEnd | examples/tally.bc:13-13 | Past the end every tally is empty, for ever |
| Tallies.NumberFits | include/beancraft/tally.h:25-31 | The program's number is below 2 to the bit count |
| Tallies.NumberJoin | src/tally.c:101-110 | Tallies laid behind others are moved up by exactly as many bits as those are counted to take |
| Tally.PrependField | src/tally.c:113-123 | Appends the tally of n ones and a zero below what is there |
| Tally.TallyProgram | src/tally.c:125-145 | The number of the whole program's tallies, below 2 to the layout's bit count |
| Tally.MulPow | src/tally.c:147-158 | Square-and-multiply multiplies the accumulator by exactly base to the power e, e a big number |
| Tally.TallyBank | src/tally.c:160-165 | The product of the primes to the register values |
| Tally.TallyDecode | src/tally.c:167-181 | For R > 0, R is the rest times the product of the primes to the values read, with no layout prime dividing the rest; for R = 0 everything read is zero |
| Tally.DecodeBank | src/tally.c:160-181 | Decoding the bank of any register values gives the values of the named registers back, and the rest is 1 |
| Tally.TallyRuns | src/tally.c:125-165 | For every source program whose entry is the lowest kept: the universal machine on its number and the bank of any registers halts if and only if the source halts, holding the bank of the source's final registers |
| Emulation.Emulate | src/tally.c:125-181 | Encode a program and its registers, lower and optimize the universal machine's text, step it on big-number words under a cap, decode the bank: the machine rests within the cap or not, and if it does nothing is left over and the decoded registers, with the untouched ones, are the source program's final registers |
| Emulation.EmulationEnds | src/tally.c:125-165 | If the source program ends, some cap lets the optimized universal machine come to rest |
| Emulation.DecodesFinal | src/tally.c:167-181 | Whatever the optimized universal machine leaves in R decodes, with rest 1, to the source program's final registers |
| Emulation.Encode | src/tally.c:125-165 | The layout, the number of the program and the number of the registers, for at most 2^32 registers |
| Universality.UniversalMachine | examples/tally.bc:44-115 | The 62 instructions, on any encoded program's number and bank and nothing else, halt if and only if the program does, after at least as many moves, with the bank of its final registers |
| Universality.SimulateGive | examples/tally.bc:94-106 | From fetch to fetch the machine carries out one encoded give |
| Universality.SimulateTake | examples/tally.bc:65-115 | From fetch to fetch the machine carries out one encoded take, on either branch |
| Universality.SimulateStop | examples/tally.bc:95-95 | An encoded stop, or running past the end, takes the machine to its own stop with the bank intact |
| Universal.Seek | examples/tally.bc:51-63 | With PC at n, n tallies are dropped and the next one is in X when decoding starts |
| Universal.Read | examples/tally.bc:51-59 | The reading loop adds the next tally to X and puts the rest of the program back |
| Universal.Takes | examples/tally.bc:108-115 | Both targets of a take are read, in order, before the division |
| Universal.Taken | examples/tally.bc:65-85 | If p divides the bank it is divided by p and the second target becomes the program counter |
| Universal.Empty | examples/tally.bc:74-79 | If p does not divide the bank it is put back and the first target stays the program counter |
| Universal.Gives | examples/tally.bc:94-106 | The bank is multiplied by p and the target becomes the program counter |
| TallySource.LowerText | examples/tally.bc:44-115 | Lowering the text of the universal machine, whatever the hash, succeeds and gives exactly the 62 instructions everything above is proved of |
| TallySource.TextLowers | examples/tally.bc:44-115 | Each line of the text is its instruction: labels resolve to where they stand, registers are numbered by first mention |
| EndToEnd.OptimizedUniversal | examples/tally.bc:21-23 | Optimizing the universal machine leaves what it computes alone, in no more moves |

## Left out

- Devices: terminal, display, audio and the wasm host are input and output; a program here has no device registers, except that the optimizer is told which registers are devices and does not fold over them.
- Lexer, parser, printer, loader and error texts: lowering starts from statements with their labels and jumps already read; the loader's file search and scoping have no independent meaning to compare against.
- The arena, the string pool, allocation failure and `free`: memory is Dafny's. What `free` needs is kept: an addition in place may only be given a source whose limbs are not the destination's own.
- QBE text syntax, the external compiler and `src/qbe_driver.c`: only the structure of blocks, the calls they make and the order of their lines are modelled; names, data sections and the 64-bit register accessors are not.
- The command line, debugger, trace and dot output, timing output, label names and the pairing encoder of `src/main.c`: reporting, or simpler relatives of what is modelled.
- `urm.bc` and the other example programs: not part of this model.
- Checking.Check: it, the compiled code on words and the emulation run with a bit counter wide enough for every division; with the source's 32-bit counter they need what `Interp.InterpState.Run` asks of the run.
- Optimizer.IrOptimize: 32-bit instruction indices and counts are unbounded; pass 2 tests `consumed` for instructions no fold covers, where it is never set, and the model leaves the test out.
- Detect.DetectDivBin: the scratch array is a sequence whose written slots are counted; what writing past the end of the source's array does is not modelled.
- Optimizer.IrOptProgram.RemoveDead: the source computes the new positions and copies the kept records in adjacent loops over the same marks; the model has one method for each.
- Bignums.AddLimbs: operands are read as sequences of limbs taken when the call starts, so adding a number to itself needs no separate case.
- Bignums.IncSlow: growing an array in place is a larger fresh array with the same limbs.
- RegFiles.RegFile.MulAddAt: the compiled code's `bc_muladd` and `bc_divbin` repeat the interpreter's code and share its methods here.
- Interp.InterpState.Run: the stop flag that a host may set from outside and the device masks are absent.
- Qbe.Exec: the temporaries of a block are one loaded value, one remainder and one condition.
- Layouts.ReadOffset: reads the end offset where the source, having dropped trailing stops that are jumped to, would read past its table.
- Tally.TallyBank: primes are required to fit a 64-bit word, as the source stores them; `LayOut` hands out no others.
- Layouts.LayOut: registers are indices, and the no-op register is given by its index instead of by name.
- Lowering.Lower: interned strings are a type of names of which only identity matters; the registers a device depends on are given by a function; the index masks of the table are remainders by its capacity.
- TallySource.Line: the lines are statements already; splitting the file into words is the parser's work and not modelled.
