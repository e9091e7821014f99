# Verified model of the base layer

A Dafny model of the arithmetic, generators, encodings, tables and the object pool in
the base layer, with the properties its code and comments promise proved for all inputs.
Machine integers are naturals below a modulus, so wrap-around is always written out; where the
source promotes 16-bit operands to int before it multiplies them, the model wraps all the same.

`dafny verify dfyconfig.toml` checks the whole project.

| file | what it models |
|---|---|
| `Arithmetic.dfy`, `Bitwise.dfy`, `Counting.dfy` | powers of two, Euclidean division, bitwise operators on naturals, sizes of finite sets |
| `Congruential.dfy`, `PcgOutput.dfy`, `PcgWords.dfy`, `PcgEngine.dfy`, `InsideOut.dfy`, `Shuffle.dfy` | the PCG engine: jump-ahead, distance, periods, the output permutation and its words, bounded draws, table words, shuffling |
| `WideInteger.dfy`, `WideShift.dfy`, `WideMultiply.dfy`, `WideDivide.dfy`, `WideOverflow.dfy`, `WideText.dfy` | wide integers of any number of 64-bit limbs, their overflow flags and their text |
| `UInt128.dfy` | the emulated 128-bit integers of the generators |
| `ConsistentHashing.dfy`, `HashBalance.dfy`, `HashCount.dfy` | the constant-time consistent hash, why its scheme is fair, and how many keys each basket receives |
| `Decimal.dfy`, `Itoa.dfy`, `IntegerReaders.dfy` | decimal printing by multiply-and-shift, the simple printer, the integer readers |
| `DecomposedFloat.dfy` | exact comparison of a float with an integer |
| `Gregorian.dfy`, `DateLut.dfy`, `Weeks.dfy`, `WeekModes.dfy`, `DayIndex.dfy` | the calendar tables, month arithmetic, week numbers and the documented week modes, day lookup |
| `BorrowedObjectPool.dfy` | the pool's critical sections and the protocol of its waiting threads |

Local integers that the source copies and then changes limb by limb (`integer res(lhs)`,
`uint_x4 r`) are sequences reassigned in loops; buffers written through a pointer, the
shuffled range and the calendar tables are arrays; the engine, the pool and the tables
are classes.

What the code and a specification both rely on (the output function, the bit count, the float
layouts, the week modes, the digits of a text) is also described apart from the code, by bits,
sets, tables or figures.

Some promises of the source do not hold for every input. Each of these has the exact
condition under which it holds:

- the crossing flag of one `external_advance` differs from the flags of single steps
  exactly when the stored word is zero (`InsideOut.FlagAgreesUnlessZero`);
- the flag of a backward jump is right for all words and lengths exactly when the state has
  32 bits or more (`InsideOut.BackwardFlagRight`): 8 and 16-bit operands are promoted before
  they are negated, and the comparison always succeeds (`InsideOut.BackwardFlagFails`);
- signed division gives the truncated quotient exactly when it is not the minimum
  divided by -1 (`WideDivide.Slash`);
- over all keys the baskets of the consistent hash are equally likely exactly when their
  number is a power of two (`ConsistentHashing.BalancedIff`); growing to n baskets moves
  the promised fraction of the keys from every smaller number exactly then, too
  (`ConsistentHashing.MovedIff`). The scheme itself would be fair for every n if its number were
  uniform (`HashBalance.EqualChances`); with the number the code makes, the size of every
  basket is known (`HashCount.BasketSize`) and bounded around the even share
  (`HashCount.EvenSpread`). Above 2^13 baskets of the 16-bit hash or 2^24 of the 32-bit hash,
  if n is no power of two, the number is too small to reach baskets far above the last
  power of two, which get less than their share (`HashCount.LateBaskets`,
  `HashCount.ShortBlocks`);
- that number determines all bits the power-of-two scheme leaves unused exactly for 16-bit
  blocks (`HashCount.KeepsUnusedIff`);
- the float comparison is exact for all operands of a pair of types exactly when the
  integer is no wider than the float (`DecomposedFloat.ExactIffNoWider`), although its
  comment promises arbitrary width;
- adding months reaches the right date exactly when the table contains it, for every number
  of months (`DateLut.AddMonthsExact`): the table ends on 11 November 2283, although its
  comment calls 2283 complete;
- `toYearWeek` follows its convention on every day of the table except the last, in the
  modes whose weeks start on Sunday and whose week one contains 1 January
  (`Weeks.ToYearWeek`);
- `toISOWeek` agrees with `toYearWeek` in mode 3 exactly on the first four days of the table
  and from 4 January 1926 on (`Weeks.ISOWeekExact`, `Weeks.ModeThreeAgrees`): in between the
  start of the ISO year lies before the table and the index wraps (`Weeks.ISOWeekFails`);
- a thread sleeping in the pool can still be served exactly while fewer factory calls
  have thrown than the pool has places, if nobody waits while holding an object
  (`BorrowedObjectPool.ServableIff`); in general, exactly when an object is idle or another
  holder is not waiting or waits with a timeout, and then without spurious wakeups
  (`BorrowedObjectPool.FindsExactly`).

## Model

| member | source | states |
|---|---|---|
| `Congruential.Advance` | base/pcg-random/pcg_random.hpp:631-660 | the square-and-multiply loop gives the state after delta single steps of `bump`, for every delta |
| `Congruential.StepsInClosedForm` | base/pcg-random/pcg_random.hpp:405-408 | n single steps multiply the state by the n-th power of the multiplier and add the increment times a geometric sum, modulo 2^bits |
| `Congruential.StrideShift` | base/pcg-random/pcg_random.hpp:672-681 | 2^j steps keep the bits below bit j (bit j + 2 of an MCG) and flip that bit, in every state |
| `Congruential.LowBitsPeriod` | base/pcg-random/pcg_random.hpp:386-389 | the low w bits of the state come back after n steps if and only if 2^w (2^(w-2) for an MCG) divides n |
| `Congruential.PeriodExact` | base/pcg-random/pcg_random.hpp:386-389 | a state comes back after n steps if and only if the period announced by `period_pow2` divides n |
| `Congruential.OrbitIsEverything` | base/pcg-random/pcg_random.hpp:386-389 | the orbit of a state is exactly the set of all state words, or for an MCG all with the same two low bits |
| `Congruential.OrbitSize` | base/pcg-random/pcg_random.hpp:386-389 | the first n states of an orbit are n different states, for every n up to the period |
| `Congruential.Distance` | base/pcg-random/pcg_random.hpp:662-683 | terminates within the bit width, its internal assertion holds, and the result is a number of steps below the period after which the masked states agree |
| `Congruential.BackstepUndoes` | base/pcg-random/pcg_random.hpp:454-457 | stepping on by the wrapped negative of delta undoes delta steps, and the other way round |
| `PcgOutput.UnxorshiftInverts` | base/pcg-random/pcg_extras.hpp:261-279 | `unxorshift` undoes x ^ (x >> s) for every width and every s > 0 |
| `PcgOutput.XorshiftInverts` | base/pcg-random/pcg_extras.hpp:261-279 | and the xorshift undoes `unxorshift`, so both are bijections |
| `PcgOutput.MultipliersInverse` | base/pcg-random/pcg_random.hpp:899-914 | each unmultiplier is the inverse of its multiplier modulo 2^bits |
| `PcgOutput.UnoutputInverts` | base/pcg-random/pcg_random.hpp:917-958 | `unoutput` undoes `output` on every state of every width |
| `PcgOutput.OutputInverts` | base/pcg-random/pcg_random.hpp:917-958 | `output` undoes `unoutput` on every word |
| `PcgWords.OutputIs` | base/pcg-random/pcg_random.hpp:917-936 | for each width, a word is the output of a state if and only if its bits are those of the product, flipped where the bit 6, 11, 22, 43 or 86 places above is set, and the factor is the state mixed in the same way by a shift that its top 2 to 6 bits choose |
| `PcgWords.TopBitWords` | base/pcg-random/pcg_random.hpp:917-936 | the output words of the states with only the top bit set, in figures, for each width |
| `PcgEngine.StreamIncrement` | base/pcg-random/pcg_random.hpp:326-345 | the increment made from a stream number is 2 * stream + 1 modulo 2^bits and odd |
| `PcgEngine.DefaultsValid` | base/pcg-random/pcg_random.hpp:155-170 | the default multipliers and increments of every width, any selected stream and the MCG satisfy the full-period conditions |
| `PcgEngine.DefaultSteps` | base/pcg-random/pcg_random.hpp:155-170 | where the default generator of each width goes from the states 0 and 1, in figures |
| `PcgEngine.Engine.constructor` | base/pcg-random/pcg_random.hpp:476-481 | seeding gives a valid state: an MCG keeps the upper bits of the seed and sets the two low ones, the others bump seed plus increment |
| `PcgEngine.Engine.SetStream` | base/pcg-random/pcg_random.hpp:326-329 | changes only the increment and keeps the engine valid |
| `PcgEngine.Engine.Next` | base/pcg-random/pcg_random.hpp:405-429 | returns the output of the old state, or of the new one, as the engine was set up, and moves one step |
| `PcgEngine.Engine.Advance` | base/pcg-random/pcg_random.hpp:449-452 | moves the engine delta steps |
| `PcgEngine.Engine.Backstep` | base/pcg-random/pcg_random.hpp:454-457 | afterwards delta steps lead back to the old state |
| `PcgEngine.Engine.Minus` | base/pcg-random/pcg_random.hpp:685-701 | the difference of two engines is the one number of steps below the period from one state to the other |
| `PcgEngine.DistanceIsExact` | base/pcg-random/pcg_random.hpp:662-683 | the distance is the only number of steps within a period that reaches the goal |
| `PcgEngine.DrawsDiffer` | base/pcg-random/pcg_random.hpp:423-429 | within a period no output word comes twice |
| `PcgEngine.Engine.BoundedRand` | base/pcg-random/pcg_extras.hpp:450-462 | returns the first draw not below the threshold, reduced, and leaves the state after it; if the threshold is below the period, at most threshold draws are rejected |
| `PcgEngine.RejectedAtMost` | base/pcg-random/pcg_extras.hpp:450-462 | a threshold below the period rejects at most threshold draws in a row |
| `PcgEngine.SomeAccepted` | base/pcg-random/pcg_extras.hpp:450-462 | from every state, an MCG included, and for every bound some draw is accepted, so the loop ends |
| `PcgEngine.BoundedDrawUnique` | base/pcg-random/pcg_extras.hpp:450-462 | a state determines the bounded draw and the state after it |
| `PcgEngine.BoundedRandUnbiased` | base/pcg-random/pcg_extras.hpp:450-462 | every result below the bound comes from the same number of states, namely 2^bits / bound |
| `PcgEngine.DrawnFromAccepting` | base/pcg-random/pcg_extras.hpp:450-462 | a bounded draw with result r reduces the word of a state that `BoundedRandUnbiased` counts for r |
| `PcgEngine.AcceptingIsDrawn` | base/pcg-random/pcg_extras.hpp:450-462 | and from every counted state the draw has that result |
| `InsideOut.StepsFollowState` | base/pcg-random/pcg_random.hpp:1130-1140 | n calls of `external_step` on a stored word are n steps of the state behind it |
| `InsideOut.SlotsDiffer` | base/pcg-random/pcg_random.hpp:1130-1140 | the first 2^(bits-1) table slots run on different streams |
| `InsideOut.ZeroWord` | base/pcg-random/pcg_random.hpp:1130-1140 | the stored word is zero if and only if the state is |
| `InsideOut.ExternalAdvance` | base/pcg-random/pcg_random.hpp:1142-1159 | one jump leaves the word of delta single steps, backwards the word from which delta steps lead here; the flag says whether zero lies on the way, the start included, except that backwards it is always set on states below 32 bits |
| `InsideOut.FlagAgreesUnlessZero` | base/pcg-random/pcg_random.hpp:1130-1159 | the flag of a forward jump is the disjunction of the flags of its steps if and only if the word it starts from is not zero |
| `InsideOut.BackwardFlagRight` | base/pcg-random/pcg_random.hpp:1150-1153 | the flag of a backward jump is right if and only if the state has 32 bits or more or zero really lies within delta steps back, and for all jumps if and only if it has 32 bits or more |
| `InsideOut.BackwardFlagFails` | base/pcg-random/pcg_random.hpp:1150-1153 | an 8-bit generator and a word with zero not within one step back, whose flag is set for every distance |
| `Shuffle.ShuffleInPlace` | base/pcg-random/pcg_extras.hpp:464-477 | the range becomes the order determined by one choice a round, a permutation of the old range; the choices are the bounded draws from the successive states of the engine, with bounds n down to 2; the rest of the array is unchanged |
| `Shuffle.ShuffleRound` | base/pcg-random/pcg_extras.hpp:469-476 | a bounded draw and the swap of the drawn element with the last one not yet placed |
| `Shuffle.ChoicesDetermined` | base/pcg-random/pcg_extras.hpp:464-477 | the state the engine starts from determines all choices |
| `Shuffle.ShuffleInjective` | base/pcg-random/pcg_extras.hpp:464-477 | different choices give different orders of distinct elements |
| `Shuffle.ShuffleSurjective` | base/pcg-random/pcg_extras.hpp:464-477 | every order of the range comes from some choices, so uniform choices give a uniform order |
| `WideInteger.ValInjective` | base/common/wide_integer_impl.h:399-418 | equal values have equal limbs |
| `WideInteger.SignedUnique` | base/common/wide_integer_impl.h:176-183 | a value modulo 2^Bits in the signed range determines the two's-complement integer |
| `WideInteger.NegativeIffHigh` | base/common/wide_integer_impl.h:176-183 | the sign bit is set if and only if the value is at least half the modulus |
| `WideInteger.Plus` | base/common/wide_integer_impl.h:453-484 | the two passes add modulo 2^Bits, for any number of limbs |
| `WideInteger.Minus` | base/common/wide_integer_impl.h:420-451 | the two passes subtract modulo 2^Bits |
| `WideInteger.Pipe` | base/common/wide_integer_impl.h:741-757 | limb-wise or is the bitwise or of the values |
| `WideInteger.Amp` | base/common/wide_integer_impl.h:759-775 | limb-wise and is the bitwise and of the values |
| `WideInteger.Tilda` | base/common/wide_integer_impl.h:589-596 | the complement is 2^Bits - 1 minus the value |
| `WideInteger.UnaryMinus` | base/common/wide_integer_impl.h:598-602 | negation modulo 2^Bits |
| `WideInteger.MakePositive` | base/common/wide_integer_impl.h:194-198 | the magnitude of the signed integer, the minimum included |
| `WideInteger.IsZero` | base/common/wide_integer_impl.h:777-790 | true if and only if the value is zero |
| `WideInteger.Greater` | base/common/wide_integer_impl.h:669-692 | true if and only if the signed, or unsigned, integer is greater |
| `WideInteger.Less` | base/common/wide_integer_impl.h:694-717 | true if and only if the signed, or unsigned, integer is less |
| `WideShift.ShiftLeft` | base/common/wide_integer_impl.h:330-355 | multiplication by 2^n modulo 2^Bits, for every n below Bits |
| `WideShift.ShiftRight` | base/common/wide_integer_impl.h:357-395 | floor division by 2^n of the unsigned value, or of the two's-complement integer |
| `WideMultiply.MultiplyGeneric` | base/common/wide_integer_impl.h:545-585 | the shift-add loop with its 3x and 7x shortcuts computes the product modulo 2^Bits |
| `WideMultiply.Multiply256` | base/common/wide_integer_impl.h:490-533 | the unrolled half-word product computes the product modulo 2^256 |
| `WideMultiply.Multiply` | base/common/wide_integer_impl.h:486-586 | all three branches compute the product modulo 2^Bits |
| `WideMultiply.Star` | base/common/wide_integer_impl.h:640-667 | the product of the signed, or unsigned, integers modulo 2^Bits |
| `WideDivide.Divide` | base/common/wide_integer_impl.h:792-842 | terminates with n = q * d + r and r < d; a zero denominator is the error, for any number of limbs |
| `WideDivide.TruncSpec` | base/common/wide_integer_impl.h:844-882 | truncated quotient and remainder recompose the dividend, the remainder smaller than the divisor and with the sign of the dividend |
| `WideDivide.TruncUnique` | base/common/wide_integer_impl.h:844-882 | no other pair does |
| `WideDivide.Slash` | base/common/wide_integer_impl.h:844-862 | truncated division modulo 2^Bits, exact unless it is the minimum divided by -1; a zero divisor is the error |
| `WideDivide.Percent` | base/common/wide_integer_impl.h:864-882 | the remainder of truncated division, always exact; a zero divisor is the error |
| `WideOverflow.LimitValues` | base/common/arithmeticOverflow.h:58-86 | the limits used by the tests are the bounds of the types |
| `WideOverflow.OperatorPlus` | base/common/wide_integer_impl.h:604-620 | addition modulo 2^Bits on both sign branches |
| `WideOverflow.OperatorMinus` | base/common/wide_integer_impl.h:622-638 | subtraction modulo 2^Bits on both sign branches |
| `WideOverflow.AddOverflow` | base/common/arithmeticOverflow.h:58-86 | the flag is true if and only if the sum is not representable; the result is the sum otherwise and the wrapped sum always |
| `WideOverflow.SubOverflow` | base/common/arithmeticOverflow.h:112-140 | the flag is true if and only if the difference is not representable; the result is the difference otherwise and the wrapped one always |
| `WideText.ToString` | base/common/wide_integer_to_string.h:13-36 | the decimal text of the integer, with a minus sign for negative ones; the digit loop ends |
| `WideText.ReadDigits` | base/common/wide_integer_impl.h:904-957 | the digits up to the terminator, read in base 10 or 16, modulo 2^Bits; another character is the error |
| `WideText.FromStr` | base/common/wide_integer_impl.h:904-957 | sign, prefix and digits are read as the integer they denote, modulo 2^Bits |
| `WideText.ReadDecimal` | base/common/wide_integer_impl.h:941-953 | an optional minus sign and decimal digits, leading zeros included, are read as the sum of the digits times their places |
| `WideText.ReadHexadecimal` | base/common/wide_integer_impl.h:912-940 | so are hexadecimal digits of either case after 0x or 0X |
| `WideText.ReadHexText` | base/common/wide_integer_impl.h:912-940 | the hexadecimal text of n, in either case, with either prefix and sign, is read as n |
| `WideText.ReadForms` | base/common/wide_integer_impl.h:904-957 | no other text without a terminator inside is read |
| `WideText.Terminated` | base/common/wide_integer_impl.h:916-916 | what follows a terminator does not matter |
| `WideText.ReadWrites` | base/common/wide_integer_impl.h:904-957 | the text of an integer denotes that integer |
| `WideText.RoundTrip` | base/common/wide_integer_impl.h:904-957 | what `from_str` returns for the text of n is n, the signed minimum included |
| `WideText.WriteThenRead` | base/common/wide_integer_impl.h:904-957 | `to_string` followed by `from_str` returns the integer |
| `UInt128.AddWithCarry` | base/pcg-random/pcg_uint128.hpp:186-193 | result and carry make up the sum of both words and the carry in |
| `UInt128.SubWithCarry` | base/pcg-random/pcg_uint128.hpp:195-202 | result and borrow make up the difference |
| `UInt128.Plus` | base/pcg-random/pcg_uint128.hpp:564-581 | addition modulo 2^128 |
| `UInt128.Minus` | base/pcg-random/pcg_uint128.hpp:583-600 | subtraction modulo 2^128 |
| `UInt128.CarryChain` | base/pcg-random/pcg_uint128.hpp:523-560 | the carries of the partial products add up to their sum modulo 2^128 |
| `UInt128.Times` | base/pcg-random/pcg_uint128.hpp:520-561 | the product modulo 2^128 |
| `UInt128.ShiftLeft` | base/pcg-random/pcg_uint128.hpp:676-709 | multiplication by 2^shift modulo 2^128, for every shift of the 8-bit count |
| `UInt128.ShiftRight` | base/pcg-random/pcg_uint128.hpp:711-744 | floor division by 2^shift, also for shifts from 128 to 159 |
| `UInt128.Less` | base/pcg-random/pcg_uint128.hpp:649-654 | true if and only if the number is less |
| `UInt128.FLog2` | base/pcg-random/pcg_uint128.hpp:429-443 | the result r has 2^r <= v < 2^(r+1) |
| `UInt128.DivMod` | base/pcg-random/pcg_uint128.hpp:460-503 | terminates with the quotient and remainder for every dividend and nonzero divisor |
| `ConsistentHashing.Hash2Value` | contrib/consistent-hashing/consistent_hashing.cpp:48-68 | the low k bits of c choose the octave of the basket; the place in it is read from block a if an even number of them is set, else from block b |
| `ConsistentHashing.PopCountIsOnes` | contrib/consistent-hashing/consistent_hashing.cpp:48-53 | the bit count of the low k bits is the number of positions below k whose bit is set |
| `ConsistentHashing.Doubling` | contrib/consistent-hashing/consistent_hashing.cpp:55-68 | going from 2^(k-1) to 2^k baskets moves a key if and only if bit k-1 of c is set, and then into the new half |
| `ConsistentHashing.HashBelow` | contrib/consistent-hashing/consistent_hashing.h:10-19 | the basket is below n, for every key and supported n |
| `ConsistentHashing.HashAtPower` | contrib/consistent-hashing/consistent_hashing.cpp:84-114 | for n = 2^k the large scheme decides alone |
| `ConsistentHashing.KnownBaskets` | contrib/consistent-hashing/consistent_hashing.cpp:84-114 | the baskets of three keys in figures: the block that is read, a key kept by the smooth step and one sent to the small scheme |
| `ConsistentHashing.Monotone` | contrib/consistent-hashing/consistent_hashing.cpp:84-114 | for n1 <= n2 the basket stays or becomes one of the new ones, and it changes if and only if it is a new one |
| `ConsistentHashing.PowerBalance` | contrib/consistent-hashing/consistent_hashing.cpp:55-68 | each of 2^k baskets receives the same number of keys; among triples of low bits 2^(2k) of 2^(3k) |
| `ConsistentHashing.BalancedIff` | contrib/consistent-hashing/consistent_hashing.h:10-19 | over all keys the baskets are equally likely if and only if n is a power of two |
| `ConsistentHashing.MovedSize` | contrib/consistent-hashing/consistent_hashing.h:10-19 | for every n1 and n2 the moved keys are exactly those of the new baskets, and their number is the sum of the sizes of these |
| `ConsistentHashing.ThreeBaskets` | contrib/consistent-hashing/consistent_hashing.h:10-19 | with three baskets they are not |
| `ConsistentHashing.MovedFraction` | contrib/consistent-hashing/consistent_hashing.h:10-19 | growing to n2 equally likely baskets moves exactly the fraction (n2 - n1) / n2 of all keys |
| `ConsistentHashing.MovedIff` | contrib/consistent-hashing/consistent_hashing.h:10-19 | the fraction (n2 - n1) / n2 of all keys moves for every n1 up to n2 if and only if n2 is a power of two |
| `ConsistentHashing.TwoToThree` | contrib/consistent-hashing/consistent_hashing.h:10-19 | growing from two baskets to three does not move a third of the keys |
| `HashBalance.JointBalance` | contrib/consistent-hashing/consistent_hashing.cpp:48-68 | the baskets among 2^k and among 2^(k-1) of a moved key are independent: each pair comes from the same number of keys, because the bit count of c selects different blocks |
| `HashBalance.HashIsPick` | contrib/consistent-hashing/consistent_hashing.cpp:92-114 | the hash is a choice made from the two baskets and a number below L * (L + 1) |
| `HashBalance.WaysToNew` | contrib/consistent-hashing/consistent_hashing.cpp:103-110 | from every L not below n, the same number of these numbers leads to each new basket below n |
| `HashBalance.WaysToOld` | contrib/consistent-hashing/consistent_hashing.cpp:103-114 | and the rest of them to the old baskets, each equally often |
| `HashBalance.EqualChances` | contrib/consistent-hashing/consistent_hashing.h:10-19 | with both baskets and the number uniform, every basket has the chance 1 / n, for every n; what the real number adds is in `HashCount` |
| `HashCount.AsteriskForm` | contrib/consistent-hashing/consistent_hashing.cpp:70-82 | the combined value is the concatenation of the bits of d and c that 64 bits have room for and the unused bits of b and a, for both widths |
| `HashCount.AsteriskSame` | contrib/consistent-hashing/consistent_hashing.cpp:70-82 | two keys have the same combined value if and only if they agree on exactly those bits |
| `HashCount.KeepsUnusedIff` | contrib/consistent-hashing/consistent_hashing.cpp:70-82 | the combined value determines every unused bit if and only if the blocks have 16 bits |
| `HashCount.FiberSize` | contrib/consistent-hashing/consistent_hashing.cpp:48-82 | the combined value is independent of both baskets of a moved key: every combination of the three comes from the same number of keys |
| `HashCount.BasketSize` | contrib/consistent-hashing/consistent_hashing.cpp:84-114 | the exact number of keys in every basket, for every number of baskets |
| `HashCount.EvenSpread` | contrib/consistent-hashing/consistent_hashing.h:10-19 | the number of keys in a basket differs from 1 / n of all keys by at most the keys of the last, incomplete range of numbers for each basket of the large scheme from n on, or of all combinations that lead to it if they are fewer |
| `HashCount.DeviationBelow` | contrib/consistent-hashing/consistent_hashing.h:10-19 | that bound is at most the keys of 2^(2k) combinations each, and for the baskets below 2^(k-1) always less than an even share, where 2^(k-1) < n <= 2^k |
| `HashCount.LateBaskets` | contrib/consistent-hashing/consistent_hashing.h:10-19 | where the number has at most 2k - 2 bits and n is not a power of two, every basket from 2^(k-1) + 2^(bits - k) on receives 2^(4w-k) keys, less than an even share |
| `HashCount.ShortBlocks` | contrib/consistent-hashing/consistent_hashing.cpp:70-82 | that is the case exactly from k = 14 on for 16-bit and from k = 25 on for 32-bit blocks |
| `Decimal.TextIsNumeral` | base/common/itoa.h:161-265 | the decimal text has no leading zero and denotes its number |
| `Decimal.NumeralUnique` | base/common/itoa.h:161-265 | it is the only such text |
| `Itoa.SplitExact` | base/common/itoa.h:65-127 | the multiply-and-shift is division by 10^N with remainder, for every value of the 2, 4 and 8-byte types |
| `Itoa.TableEntry` | base/common/itoa.h:141-158 | entry v of the digit table is the two digits of v |
| `Itoa.Tail` | base/common/itoa.h:199-217 | writes exactly 2N digits, leading zeros included, and nothing else |
| `Itoa.Head` | base/common/itoa.h:166-195 | writes the decimal text without leading zeros and nothing else |
| `Itoa.Large` | base/common/itoa.h:219-232 | the same for values with more than 2N digits |
| `Itoa.Uitoa` | base/common/itoa.h:234-265 | writes the decimal text of every 1, 2, 4 and 8-byte number and nothing else |
| `Itoa.MagnitudeIsAbs` | base/common/itoa.h:281-302 | the branch-free expression is the absolute value, the minimum included |
| `Itoa.SignedRanges` | base/common/itoa.h:278-312 | the ranges of the 1, 2, 4 and 8-byte signed types, in figures |
| `Itoa.Itoa` | base/common/itoa.h:278-312 | writes the signed decimal text; the minus sign stored first is overwritten for other numbers |
| `Itoa.Digits10Length` | base/common/itoa.h:315-347 | the comparison tree gives the length of the decimal text of every number |
| `Itoa.WriteUIntText` | base/common/itoa.h:349-368 | the backward loop writes the same text as `uitoa`, for numbers of any width |
| `Itoa.MinTextIs` | base/common/itoa.h:385-399 | the texts spelled out for the 128 and 256-bit minimum are right |
| `Itoa.WriteSIntText` | base/common/itoa.h:376-407 | writes the signed decimal text of every 128 and 256-bit integer |
| `IntegerReaders.ReadUIntText` | base/common/JSON.cpp:18-51 | the digits of the longest prefix of digits and plus signs, modulo 2^64; empty input is the error |
| `IntegerReaders.ReadIntText` | base/common/JSON.cpp:54-95 | the same with minus signs, one of which negates, as a 64-bit two's-complement integer |
| `IntegerReaders.PlusIsSkipped` | base/common/JSON.cpp:18-95 | a plus sign anywhere in what is read changes nothing |
| `IntegerReaders.MinusNegates` | base/common/JSON.cpp:54-95 | a minus sign anywhere in what is read negates the result if there is none yet, and ends an unsigned number |
| `IntegerReaders.LeadingZero` | base/common/JSON.cpp:18-95 | a leading zero changes nothing |
| `IntegerReaders.OtherEnds` | base/common/JSON.cpp:18-95 | any other character ends the number |
| `IntegerReaders.ReadUIntBack` | base/common/JSON.cpp:18-51 | the text of a 64-bit number, followed by anything unreadable, is read as that number |
| `IntegerReaders.ReadIntBack` | base/common/JSON.cpp:54-95 | the text of a signed 64-bit integer, followed by anything unreadable, is read as that integer |
| `IntegerReaders.PrintThenRead` | base/common/itoa.h:278-312 | printing a signed 64-bit integer into a buffer leaves its text there and nothing else changed, and `readIntText` of that text is the integer, the minimum included |
| `DecomposedFloat.Fields` | base/common/DecomposedFloat.h:46-74 | sign, exponent and mantissa recompose the encoding |
| `DecomposedFloat.Singles` | base/common/DecomposedFloat.h:12-20 | the fields, the sign, the finite encodings and the value of every single, in figures of the interchange format |
| `DecomposedFloat.Doubles` | base/common/DecomposedFloat.h:22-29 | the same of every double |
| `DecomposedFloat.KnownEncodings` | base/common/DecomposedFloat.h:32-74 | the encodings of one, minus two, the smallest number, the largest finite one and infinity |
| `DecomposedFloat.KnownTypes` | base/common/DecomposedFloat.h:93-174 | the ranges of the integer types, in figures |
| `DecomposedFloat.SameOctaveExact` | base/common/DecomposedFloat.h:152-174 | comparing the fractions below a shared leading bit gives the exact sign of the difference |
| `DecomposedFloat.CompareExact` | base/common/DecomposedFloat.h:93-174 | the exact sign of x - rhs for every finite x, subnormals and zeros included, and every integer no wider than the float |
| `DecomposedFloat.KnownComparisons` | base/common/DecomposedFloat.h:93-174 | the double 1.0 compared with 0, 1 and 2, and -2.0 with -2, in figures |
| `DecomposedFloat.InfinityBeyond` | base/common/DecomposedFloat.h:93-174 | infinities and NaNs compare beyond every such integer, on the side of their sign |
| `DecomposedFloat.WiderFails` | base/common/DecomposedFloat.h:157-161 | for every wider integer type, two different numbers compare as equal |
| `DecomposedFloat.ExactIffNoWider` | base/common/DecomposedFloat.h:93-174 | the comparison is exact for all operands if and only if the integer type is no wider than the float |
| `DecomposedFloat.IntegerInRange` | base/common/DecomposedFloat.h:81-90 | true exactly for the whole numbers from 1 below 2^(mantissa bits + 1) in magnitude, and for positive zero |
| `Gregorian.CivilAtNumber` | base/common/DateLUTImpl.cpp:64-147 | counting day by day agrees with the closed formula of the calendar |
| `Gregorian.NumberUnique` | base/common/DateLUTImpl.cpp:64-147 | a day number belongs to one date |
| `DateLut.FillDays` | base/common/DateLUTImpl.cpp:64-147 | every entry holds the year, month, day, weekday and month length of its day |
| `DateLut.TableEnd` | base/common/DateLUTImpl.h:13-20 | the last entry is 11 November 2283 |
| `DateLut.FillMonths` | base/common/DateLUTImpl.cpp:149-172 | the first days of all years and of all months up to the end of the table; later months share the last one |
| `DateLut.DateLUT.constructor` | base/common/DateLUTImpl.cpp:41-172 | the three tables agree with the calendar |
| `DateLut.MakeExact` | base/common/DateLUTImpl.h:920-926 | every date in the table is mapped to its day |
| `DateLut.MakeRunsOn` | base/common/DateLUTImpl.h:920-926 | a day up to 31 that the month does not have runs into the next month |
| `DateLut.MakeOutside` | base/common/DateLUTImpl.h:920-926 | a year, month or day out of range gives the first day of the table |
| `DateLut.MakeRoundTrip` | base/common/DateLUTImpl.h:920-926 | `makeLUTIndex` of the year, month and day of entry i is i, for every i |
| `DateLut.DaysInMonthExact` | base/common/DateLUTImpl.h:379-388 | the day 32 * (month - 1) after 1 January is in the right month, so its length is found |
| `DateLut.DaysInMonthOutside` | base/common/DateLUTImpl.h:379-388 | a year outside the table has months of 31 days |
| `DateLut.AddMonthsExact` | base/common/DateLUTImpl.h:1094-1130 | for every number of months the result is the target date if and only if the table contains that date |
| `DateLut.AddMonthsWraps` | base/common/DateLUTImpl.h:1107-1130 | for far targets the year wraps to 16 bits: the date in that year if the table has it, the first day of the table for a year outside it |
| `DateLut.AddMonthsFails` | base/common/DateLUTImpl.h:1107-1130 | one month after the last day of the table is that day again |
| `DateLut.AddMonths` | base/common/DateLUTImpl.h:1094-1130 | up to 2282 the month number grows by delta and the day is kept or cut to the last of the month, for positive and negative delta |
| `DateLut.AddMonthsBack` | base/common/DateLUTImpl.h:1107-1130 | adding and subtracting delta months returns to the same day if and only if the day was not cut |
| `DateLut.ToFirstDayOfQuarterIndex` | base/common/DateLUTImpl.h:318-332 | the loop reaches the first day of the quarter from every day, through the index mask where needed |
| `Weeks.ToYearWeek` | base/common/DateLUTImpl.h:627-680 | year and week follow the convention of the mode if and only if it is not the last day of the table in a mode with Sunday-first weeks and week one containing 1 January |
| `Weeks.ToYearWeekOfNewyearMode` | base/common/DateLUTImpl.h:684-715 | year and week when week one contains 1 January, right if and only if weeks start on Monday or the day is not the last of the table |
| `Weeks.DayNumOutside` | base/common/DateLUTImpl.h:929-936 | a date out of range has day number 0 |
| `Weeks.InWeekYearUnique` | base/common/DateLUTImpl.h:594-626 | a convention gives each day one year and week |
| `WeekModes.WeekOneIs` | docs/en/sql-reference/functions/date-time-functions.md:457-463 | week one is the first week that has its first day, four or more days, or 1 January in the year, counted day by day |
| `WeekModes.ModesDocumented` | docs/en/sql-reference/functions/date-time-functions.md:444-455 | `toYearWeek` gives what the table of modes says, for each of the ten modes |
| `WeekModes.CountedDays` | docs/en/sql-reference/functions/date-time-functions.md:446-451 | the week is the number of Sundays since 1 January in mode 0, of Mondays in mode 5 |
| `WeekModes.KnownWeeks` | docs/en/sql-reference/functions/date-time-functions.md:497-505 | the documented example, 27 December 2016, in modes 0, 1 and 9 |
| `WeekModes.KnownNewYear` | base/common/DateLUTImpl.h:733-739 | Wednesday 1 January 2020 is in week 0 in the default mode and week 1 in mode 1 |
| `WeekModes.KnownDays` | base/common/DateLUTImpl.h:841-841 | 1 January 1970 has day number 0 and is a Thursday; two other known weekdays |
| `Weeks.NextWeekOne` | base/common/DateLUTImpl.h:663-677 | a week year has 52 or 53 weeks, as told by the weekday of the next 1 January |
| `Weeks.FirstThursday` | base/common/DateLUTImpl.h:549-592 | the four-day rule is the first-Thursday rule of section 2.2.10 of ISO 8601:2004 |
| `Weeks.ISOYearExact` | base/common/DateLUTImpl.h:549-556 | `toISOYear` is the year of the Thursday, for all days of the table |
| `Weeks.ISOWeekExact` | base/common/DateLUTImpl.h:558-592 | `toISOYear` and `toISOWeek` follow the first-Thursday rule if and only if the day is one of the first four of the table or 4 January 1926 or later |
| `Weeks.ISOWeekFails` | base/common/DateLUTImpl.h:558-592 | on 1 to 3 January 1926 `toISOWeek` is 4294948625 |
| `Weeks.ModeThreeAgrees` | base/common/DateLUTImpl.h:586-680 | the year and week of mode 3 equal the pair `toISOYear`, `toISOWeek` if and only if the day is one of the first four of the table or 4 January 1926 or later |
| `DayIndex.FindIndexExact` | base/common/DateLUTImpl.h:193-218 | the three candidates contain the last day that starts no later than t, clamped at the ends of the table, for offsets between -12 and +14 hours |
| `DayIndex.FixedOffsetCovered` | base/common/DateLUTImpl.h:207-207 | a zone at a fixed offset is covered if and only if the offset is between -12 and +14 hours |
| `DayIndex.FindFixedOffset` | base/common/DateLUTImpl.h:193-218 | there the index is the number of whole local days since the epoch, clamped at the ends of the table |
| `BorrowedObjectPool.Pool.constructor` | base/common/BorrowedObjectPool.h:32-32 | an empty pool of the given size |
| `BorrowedObjectPool.Pool.BorrowFromObjects` | base/common/BorrowedObjectPool.h:138-147 | takes the last idle object and counts it as borrowed |
| `BorrowedObjectPool.Pool.AllocateObjectForBorrowing` | base/common/BorrowedObjectPool.h:129-136 | counts before the factory runs, so also when it throws |
| `BorrowedObjectPool.Pool.Enter` | base/common/BorrowedObjectPool.h:36-53 | the last idle object, else a new one, else the wait, which needs a limited pool that is full |
| `BorrowedObjectPool.Pool.Recheck` | base/common/BorrowedObjectPool.h:55-56 | a thread that holds the mutex again takes an idle object or goes on waiting |
| `BorrowedObjectPool.Pool.ReturnObject` | base/common/BorrowedObjectPool.h:88-97 | the object becomes the last idle one and is no longer counted as borrowed |
| `BorrowedObjectPool.ReturnedComesFirst` | base/common/BorrowedObjectPool.h:88-97 | the object returned last is borrowed first, and leaves the pool as it was |
| `BorrowedObjectPool.EnterIsStep` | base/common/BorrowedObjectPool.h:36-53 | what a call that enters the pool does is one enabled step of its thread, a throwing factory the failing step |
| `BorrowedObjectPool.RecheckIsStep` | base/common/BorrowedObjectPool.h:55-56 | and so is the recheck of a woken thread, which sleeps again unless it gets an object or its timeout has passed |
| `BorrowedObjectPool.ReturnIsStep` | base/common/BorrowedObjectPool.h:88-97 | and a return with its notification |
| `BorrowedObjectPool.StepKeeps` | base/common/BorrowedObjectPool.h:36-97 | every step of every thread keeps the counters, exclusive ownership and the attendance of idle objects |
| `BorrowedObjectPool.RunKeeps` | base/common/BorrowedObjectPool.h:36-97 | so does every run |
| `BorrowedObjectPool.ReachableSafe` | base/common/BorrowedObjectPool.h:36-147 | in every reachable state: borrowed = held + failed calls, allocated = held + idle + failed and at most max_size when positive, one owner an object, none of them idle; a sleeper implies a full pool, woken threads for all idle objects and, while fewer calls failed than max_size, a woken thread or a holder; an unlimited pool has no waiting threads; without throwing factories nothing failed |
| `BorrowedObjectPool.Servable` | base/common/BorrowedObjectPool.h:55-97 | any sleeper can be served by returns and resumptions alone, so no wakeup is lost |
| `BorrowedObjectPool.ServableIff` | base/common/BorrowedObjectPool.h:129-136 | if no holder waits, a sleeper can still be served if and only if fewer factory calls have thrown than max_size |
| `BorrowedObjectPool.FindsExactly` | base/common/BorrowedObjectPool.h:55-97 | some run in which a sleeper only waits wakes it with an object idle if and only if an object is idle or held by another thread that is not waiting or waits with a timeout; and then a run of returns, resumptions and timeouts of others does, without spurious wakeups |
| `BorrowedObjectPool.StuckForever` | base/common/BorrowedObjectPool.h:129-136 | in a pool of one, a factory that throws leaves the next client asleep with no holder and no woken thread, and no run ever serves it |

## Left out

- Wide-integer operators on mixed widths or signs, and shifts by the width or more, where the source's operators differ from each other.
- Conversions between wide integers and floating point; `operator_circumflex` and `operator_eq`.
- WideText.ReadDigits: does not cover 128 bits, because the 128-bit product takes a wide right operand only and `from_str` multiplies by a scalar.
- WideText.FromStr: does not cover 128 bits, for the same reason.
- WideText.WriteThenRead: does not cover 128 bits, for the same reason.
- WideDivide.Divide: requires a nonzero denominator for 128 bits, where the source hands the division to the compiler before any check.
- PcgEngine.Engine.Minus: both engines have the same multiplier and stream kind, which the source demands statically; for an MCG with other low bits there is no distance.
- InsideOut.ExternalAdvance: streams other than MCG only; the tables of the extended generators hold one-stream generators.
- The 16-bit generators where a product promoted to int exceeds it, which C++ leaves undefined; the model assumes that it wraps around.
- Shuffle.ShuffleInPlace: the range is shorter than the generator's result type can count, as the source casts its length to that type.
- Carry chains of the extended generator tables, seed sequences, stream input and output, streams identified by an object's address, and the other output functions.
- ConsistentHashing.MovedFraction: for equally likely baskets; `ConsistentHashing.MovedIff` says when that is, and `ConsistentHashing.MovedSize` what moves otherwise.
- HashBalance.EqualChances: assumes the number uniform; `HashCount` counts with the number the code makes.
- BorrowedObjectPool.ServableIff: for pools in which no holder waits; `BorrowedObjectPool.FindsExactly` covers the others.
- The consistent hash beyond 2^15 and 2^31 baskets, which its header excludes.
- UInt128.ShiftRight: shifts below 160; from there on the source's 8-bit word index runs below zero and past its array.
- Readers of floating-point text and the rest of the JSON code.
- NaN payloads; comparisons of floats wider than 64 bits.
- Time-zone loading, daylight-saving fields and times of day; the next civil day and its weekday are taken from the calendar instead of the time-zone library.
- BorrowedObjectPool.Servable: for pools in which no holder waits; clients that wait for one object while holding another can block each other, as `BorrowedObjectPool.FindsExactly` describes. The fairness of the scheduler is not modelled.
- The pool's move or copy of objects, its unsigned counters under clients that return what they did not borrow, and its accessors.
- Database clients, daemon, loggers, bridges, signal and file handling, SIMD string search and generated tables.
