# Verified models of the Rebol 3 core

This project models, in Dafny, the parts of the C core of Rebol 3 (`rebol3-source/src/core`) whose
correctness rests on more than reading one function, and proves what they promise.

* **Money arithmetic** (`f-deci.c`). A deci is a 26-digit significand in three 32-bit limbs, a sign and an
  exponent in [-128, 127]. The limb loops are methods over arrays, proved against the number the limbs stand
  for (`Limbs`, `LongDivision`); the decimal shifts and tables likewise (`Rounding`, `DeciShift`). `DeciSpec`
  says what an operation must return: the exact decimal value rounded once, half to even, to the finest exponent at
  which 26 digits remain, an overflow from 10^153 on. Multiplication, addition, comparison, remainder, the parser
  and the printer are proved against that. `DeciNotation` says what a text of given parts reads as and which one text
  a deci has; the parser inverts the printer.
* **Sorting** (`f-stablemerge-sort.c`, `f-qsort.c`). Both sort arrays in place under any total preorder.
  `Ordering` defines sortedness and the stable sort, and shows that it is unique. The run stack's lengths are a
  theory of their own (`RunStack`, `SumRule`, `RunHistory`).
* **The word table** (`c-word.c`, with the probe of `n-hash.c`, the hash of `s-crc.c` and the comparison of
  `s-find.c`). A class with hash array, symbols and name pool refines interning on a list of spellings, call by
  call and over whole runs.
* **Collecting and binding** (`c-frame.c`). A class holds the shared bind table; what it contains is always a
  function of the word list at hand, and it is proved clean where the code leaves it clean. `BindMeaning` says where
  every word of a block points after a bind, in every mode, without running one.
* **The evaluator** (`c-do.c`). `EvalSpec` is a recursive left-to-right evaluator on values; `StackSpec` says what
  the routines do to the whole data stack, for every block; `Evaluator` is the stack machine with its call frames,
  argument walk and operator loop, proved to do exactly that. `Agreement` shows that the two definitions agree
  wherever the first has a value, `Growth` what evaluation leaves of the stack where it has none, `Refinements`
  which argument slot takes which value. `Trees` gives expression trees a meaning without any position in a block,
  and shows that a block laid out from a tree is evaluated to what the tree means.
* **Base-64 and base-85** (`f-enbase.c`). Encoders and decoders as loops over text, proved inverse; `Base64Spec` and
  `Base85Spec` say for every text whether it stands for bytes, and for which ones.

`dafny verify dfyconfig.toml` checks everything.

## Where the code and its comments differ

* `m_divide`: the quotient estimate is said to be off by one at most. It can be two too high
  (`LongDivision.EstimateTwoHigh`), and never more (`LongDivision.EstimateNotHigh`); `LongDivision.MDivide` states
  exactly when the result is right. `deci_mod` inherits this (`DeciMod.LastEstimateFails`); `DeciMod.DeciMod` says
  for which operands its remainder is right all the same, and at aligned exponents for which it is not.
* `deci_add` on opposite signs does not shift again after the alignment has widened an operand to 27 digits;
  `DeciSub.DeciAddOpposite` states exactly when the result is the rounded difference.
* `sm_collapse` does not keep the sum rule at every depth (`RunStack.SumRuleBreaks`). It can break only at the
  fourth entry from the top, and `SumRule.PushKeepsRule` tells from the lengths before a push whether it does. What
  holds always is in `RunStack.CollapsedSettled`, and `RunHistory` shows that the stack is still only
  logarithmically deep.
* `Hash_Probe` never visits every slot (`HashProbe.MissesSlot`), and beyond 32749 slots its product wraps in 32 bits
  (`HashProbe.ProbeWraps`). Half full tables up to that size are safe all the same (`HashProbe.PrimeCovers`); for
  larger ones the covering property is a condition of what `SymbolTable.Table.MakeWord` says of exact tables.
* `CRC_Word` is not case insensitive for all names (`WordHash.CaseSplitsHash`). Case variants that hash apart
  become different words (`SymbolTable.MakeDiaeresis`); `WordHash.KeyAgrees` states exactly when they do not. What
  `MakeWord` promises whatever the hash does is stated without condition, and what it promises of canons under the
  condition that variants hash alike, which `SymbolTable.MakeAsciiWords` discharges for ASCII names.
* `Collect_Frame` leaves the SELF entry of the bind table set when SELF is asked for and the prior list belongs to a
  selfless frame without a word `self` (`BindTable.SelfStaysMarked`).
* An operator where a value should stand, past the head of a block, takes whatever cell lies on top of the stack
  as its left operand and overwrites it, so that `Do_Next` does not always leave one more cell. `StackSpec` gives it
  that meaning; `Evaluator.Machine.DoNext` states exactly when the stack grows, `Growth.BlockCompletes` when a block
  is refused for it, and `Growth.SetWordBorrows` and `Growth.CallBorrows` are instances.

## Modelling choices

* Numbers are unbounded; limbs are a subset type, and every wrap of 32-bit and 64-bit arithmetic that matters is
  written out.
* `log10` returns the floor of the logarithm, or the next integer, as its rounding may turn out: the former below
  3 * 10^floor, the latter from 4 * 10^floor, either in between.
* A comparator is a function value called through one wrapper; a total preorder is the only thing asked of it.
* Element widths, byte order and memory blocks do not appear; `memcpy` is a parallel assignment, an output pointer
  is a growing string.
* Natives are an arbitrary function from argument slots to a value or an error; variables are a finite map.
* The lower-case and CRC tables are parameters of the word hash.

## Model

| member | source | states |
|---|---|---|
| `Limbs.MCmp` | rebol3-source/src/core/f-deci.c:70-75 | Decides the order of two limb arrays as numbers: the sign of the result is the sign of the difference of their values. |
| `Limbs.MIsZero` | rebol3-source/src/core/f-deci.c:77-81 | True exactly when the value of the limbs is zero. |
| `Limbs.MAdd1` | rebol3-source/src/core/f-deci.c:196-203 | Adds a limb in place: the array's value grows by exactly b, and the carry dies inside the array whenever the sum fits it; limbs past the carry are untouched. |
| `Limbs.MAdd` | rebol3-source/src/core/f-deci.c:222-231 | n + 1 limbs receive the exact sum of two n-limb numbers. |
| `Limbs.MSubtract` | rebol3-source/src/core/f-deci.c:238-248 | The difference modulo 2^(32n), and a borrow returned exactly when the minuend is smaller; works in place, at an offset. |
| `Limbs.MNegate` | rebol3-source/src/core/f-deci.c:253-261 | Two's complement of the array: value 2^(32n) - v, or 0 for 0. |
| `Limbs.MSubtract1` | rebol3-source/src/core/f-deci.c:209-216 | Subtracts a limb in place; the borrow is paid by a higher limb as long as the value is at least b. |
| `Limbs.MMultiply1` | rebol3-source/src/core/f-deci.c:268-277 | n + 1 limbs receive the exact product with a limb, also when source and target are one array. |
| `Limbs.MDivide1` | rebol3-source/src/core/f-deci.c:319-328 | Exact quotient and remainder by one limb: a = q * b + r with r < b. |
| `Limbs.MMultiply` | rebol3-source/src/core/f-deci.c:297-311 | The schoolbook product of n and m limbs is the exact product in n + m limbs. |
| `LongDivision.DivideDigit` | rebol3-source/src/core/f-deci.c:923-982 | One turn of the long division: with an estimate at most one high the single add-back leaves the true digit and a partial remainder below the divisor; otherwise the quotient so far is too large, and stays so, and the partial remainder comes out as the true one less the divisor, wrapped in the divisor's limbs. |
| `LongDivision.EstimateNotHigh` | rebol3-source/src/core/f-deci.c:941-968 | With the leading divisor bit set a digit estimate is at most two too high, for all operands. |
| `LongDivision.MDivide` | rebol3-source/src/core/f-deci.c:923-982 | Quotient and remainder satisfy a = q * b + r, r < b if and only if the divisor has one limb or no digit estimate is more than one too high. When the last estimate alone is, the remainder is too large by 2^(32m) / k - b, k being the normalising power of two. The one-limb path needs no condition. Needs the top divisor limb below 2^31, past which the source shifts by 32. |
| `LongDivision.SmallDigitsClose` | rebol3-source/src/core/f-deci.c:923-982 | A condition on the operands alone under which the estimates are close: every digit of the true quotient is smaller than the normalised leading divisor limb. |
| `LongDivision.SmallQuotientClose` | rebol3-source/src/core/f-deci.c:923-982 | In particular when the whole quotient is below 2^31. |
| `LongDivision.EstimateTwoHigh` | rebol3-source/src/core/f-deci.c:923-982 | Concrete operands, 110680464386422734849 by 25769803775, for which a digit estimate is two too high, against the comment that one correction suffices. |
| `Rounding.RoundByFlag` | rebol3-source/src/core/f-deci.c:330-337 | A quotient with its four-valued truncation flag, incremented on more than half and on half when odd, is the exact value rounded half to even. |
| `Rounding.RoundedUnique` | rebol3-source/src/core/f-deci.c:330-337 | Rounding half to even has only one result. |
| `Rounding.TruncateChunk` | rebol3-source/src/core/f-deci.c:338-349 | Cutting a further chunk of digits updates the flag so that it still classifies all digits cut so far. |
| `DeciShift.Dsl` | rebol3-source/src/core/f-deci.c:284-291 | The left shift in chunks of nine digits multiplies the value by the exact power of ten, using only the limbs in use. |
| `DeciShift.Dsr` | rebol3-source/src/core/f-deci.c:338-349 | The right shift divides by the power of ten, truncating, and its flag classifies everything cut off, including what an earlier flag stood for. |
| `DeciShift.PowerRow` | rebol3-source/src/core/f-deci.c:84-112 | Row i of the table P is 10^i. |
| `DeciShift.LimitRow` | rebol3-source/src/core/f-deci.c:136-163 | Row i of the table Q is the least number that rounds up past 26 digits when i + 1 digits are cut. |
| `DeciShift.MaxShiftLeft` | rebol3-source/src/core/f-deci.c:114-133 | Whatever a floating estimate of the logarithm returns within its tolerance, the table look-up makes the result the greatest shift that keeps 26 digits. |
| `DeciShift.MinShiftRight` | rebol3-source/src/core/f-deci.c:135-172 | Likewise the least number of digits to cut so that the rounded result has at most 26. |
| `DeciSpec.FitsIff` | rebol3-source/src/core/f-deci.c:135-172 | A number rounds to at most 26 digits after cutting s digits exactly when it lies below 10^(26+s) - 10^s / 2. |
| `DeciSpec.RoundsToExists` | rebol3-source/src/core/f-deci.c:566-600 | Every decimal value has a rounding to 26 digits and exponent at least -128. |
| `DeciSpec.RoundsToUnique` | rebol3-source/src/core/f-deci.c:566-600 | That rounding is unique, so the outcome of an operation is determined by the exact value. |
| `DeciSpec.DeliveredOverflow` | rebol3-source/src/core/f-deci.c:566-600 | An outcome that carries the rounded value is an overflow exactly when the rounded value is 10^153 or more. |
| `DeciArith.MLdexp` | rebol3-source/src/core/f-deci.c:566-600 | Scaling to the target exponent, with the flag of what was cut before: one rounding at exponent -128 when the value underflows, an exact left shift past 127, or the overflow. |
| `DeciArith.DeciMultiply` | rebol3-source/src/core/f-deci.c:886-911 | The product is the exact product rounded once, half to even, to 26 digits and exponent at least -128, with the product of the signs; overflow exactly as for any delivered value. |
| `DeciCompare.MakeComparable` | rebol3-source/src/core/f-deci.c:356-405 | Both operands on one exponent: the higher one scaled exactly into at most 27 digits, the lower one truncated with an exact flag; digits are cut only when the higher one has more than 26. |
| `DeciCompare.DeciIsEqual` | rebol3-source/src/core/f-deci.c:407-418 | True exactly when the two rational values are equal, both zeros being equal. |
| `DeciCompare.DeciIsLesserOrEqual` | rebol3-source/src/core/f-deci.c:420-433 | True exactly when the first rational value is at most the second, for all signs and exponents; hence a total order. |
| `DeciAdd.DeciAdd` | rebol3-source/src/core/f-deci.c:435-465 | On equal signs, the exact sum rounded once, half to even, to 26 digits, with the common sign; overflow exactly when the rounded sum is 10^153 or more. |
| `DeciSub.DeciAddOpposite` | rebol3-source/src/core/f-deci.c:467-481 | On opposite signs the result is the exact difference rounded once if and only if that difference, at the exponent the alignment chose, has at most 26 digits. |
| `DeciSub.DifferenceTooLong` | rebol3-source/src/core/f-deci.c:467-481 | A pair of operands for which it has 27 digits, so that no such result is returned. |
| `DeciMod.PowerLoop` | rebol3-source/src/core/f-deci.c:1149-1172 | The square-and-multiply loop leaves sa * 10^e modulo sb for every exponent gap, given that each division in it is exact. |
| `DeciMod.OneLimbDivisor` | rebol3-source/src/core/f-deci.c:1131-1180 | For an aligned divisor of one limb every division of the loop is one of those that are exact without condition. |
| `DeciMod.SmallGapExact` | rebol3-source/src/core/f-deci.c:1131-1180 | Every division of the loop is exact when the exponents are at most 15 apart and the first quotient is below 2^31, which holds of every dividend once the divisor exceeds 10^26 / 2^31. |
| `DeciMod.LastEstimateFails` | rebol3-source/src/core/f-deci.c:1131-1180 | At equal exponents 110680464386422734849 modulo 25769803775 is an instance of a division that is not exact. |
| `DeciMod.DeciMod` | rebol3-source/src/core/f-deci.c:1131-1180 | The remainder of the magnitudes in units of the lower exponent, with the sign of the dividend: whenever the aligned divisor has one limb or more than 26 digits, or the exponents are at most 15 apart and the first quotient is below 2^31, or all divisions are exact; and with the dividend's exponent not above the divisor's, if and only if the division is exact. Division by zero and a zero dividend as in the source. |
| `DeciText.ScanMantissa` | rebol3-source/src/core/f-deci.c:1183-1232 | The significand loop holds the leading 26 digits of the literal, counts the rest, and its tail flag classifies them exactly; a second point stops it. |
| `DeciText.CarryMantissa` | rebol3-source/src/core/f-deci.c:1183-1245 | Rounding up 26 nines cuts one more digit instead, and the result is still the value rounded once. |
| `DeciText.StringToDeci` | rebol3-source/src/core/f-deci.c:1183-1272 | Whatever the sign, the $, the digits and ticks, the point and the exponent a text starts with: where they stop the literal ends, and its outcome is the number of all its digits, scaled by the signed exponent less the fraction digits, rounded once; a positive exponent past 200000000 overflows, a negative one counts as that much, and a second point yields zero and no text consumed. |
| `DeciText.EveryText` | rebol3-source/src/core/f-deci.c:1183-1272 | Every text starts with a literal in such parts that stops there, or with a mantissa of two points. |
| `DeciPrint.MToString` | rebol3-source/src/core/f-deci.c:1047-1069 | The decimal digits of the significand without leading zeros. |
| `DeciPrint.DeciToString` | rebol3-source/src/core/f-deci.c:1075-1129 | After sign and symbol the text is the significand's numeral: with a point if and only if there are fraction digits and either at most six zeros would come after the point or there is a second digit, at the place the exponent gives; with just the zeros that fill up to the first digit of a value below one; and with an exponent part, of the right integer, if and only if zeros would follow or more than six precede. Zero is a single 0. |
| `DeciNotation.WrittenOnce` | rebol3-source/src/core/f-deci.c:1075-1129 | These conditions leave one text for every deci. |
| `DeciPrint.RenderingReads` | rebol3-source/src/core/f-deci.c:1075-1129 | Every rendering is a literal whose significand, exponent and sign are those of the deci. |
| `DeciPrint.RoundTrip` | rebol3-source/src/core/f-deci.c:1047-1129 | Printing and reading back: the text is the deci's rendering, all of it is consumed, and the same deci comes back, digit for digit, in all layouts, with and without the currency symbol. |
| `Ordering.StableSortUnique` | rebol3-source/src/core/f-stablemerge-sort.c:8-10 | A sequence has only one stable sort under a total preorder, so the sort's result is determined. |
| `Ordering.StableIsPermutation` | rebol3-source/src/core/f-stablemerge-sort.c:8-10 | Keeping every group of equal elements in order makes the result a permutation. |
| `MergeSteps.InsertionSort` | rebol3-source/src/core/f-stablemerge-sort.c:39-62 | A sorted prefix is extended to the stable sort of the whole range; everything outside the range is untouched. |
| `MergeSteps.Reverse` | rebol3-source/src/core/f-stablemerge-sort.c:69-90 | The range is reversed in place. |
| `MergeSteps.ReversedStable` | rebol3-source/src/core/f-stablemerge-sort.c:205-228 | The reversal of a strictly descending run is its stable sort. |
| `MergeSteps.Merge` | rebol3-source/src/core/f-stablemerge-sort.c:97-127 | Merging back over the left run in place yields the left-biased merge of both runs. |
| `MergeSteps.MergedStable` | rebol3-source/src/core/f-stablemerge-sort.c:97-127 | The left-biased merge of two sorted runs is the stable sort of their concatenation. |
| `RunStack.CollapsedSettled` | rebol3-source/src/core/f-stablemerge-sort.c:160-198 | An unforced collapse, which inspects only the top three lengths and may break the order for a while, leaves all lengths strictly decreasing, the third from the top above the sum of the two on top, and the total unchanged. |
| `RunHistory.Light` | rebol3-source/src/core/f-stablemerge-sort.c:160-198 | Although only the top three lengths are inspected, all that lies above an entry of the stack is never more than six times as long as the entry below it. |
| `RunHistory.PushHistory` | rebol3-source/src/core/f-stablemerge-sort.c:160-198 | The fact behind it is kept by every push and collapse: each entry remembers how long the run above it was when it was put there, which was less than the difference of the two entries below, and the run above has grown since only by taking in runs shorter than a new top. |
| `RunHistory.DeepTotal` | rebol3-source/src/core/f-stablemerge-sort.c:152-198 | However many elements are sorted, a stack of k runs of sixteen or more covers at least 51 times (1.2599 to the k, less one) of them, so the stack is at most logarithmically deep. |
| `RunHistory.StackFits` | rebol3-source/src/core/f-stablemerge-sort.c:254-284 | Before a push the stack has a free one of its 64 slots whenever at most 2^27 elements are sorted, which no block exceeds: a series has fewer than 2^31 bytes and a value at least 16. |
| `RunStack.SumRuleBreaks` | rebol3-source/src/core/f-stablemerge-sort.c:152-154 | The sum rule is not kept at every depth, as the comment has it: a push of 30 on runs of 120, 80, 25 and 20 leaves 120, 80, 45 and 30. |
| `SumRule.BreaksAtFourth` | rebol3-source/src/core/f-stablemerge-sort.c:160-198 | On a stack that obeys the rule at every depth, whatever is pushed, a collapse leaves lengths that strictly decrease and obey it everywhere but perhaps at the fourth entry from the top; the rule is kept at every depth if and only if it holds there. |
| `SumRule.ShortPushKeepsRule` | rebol3-source/src/core/f-stablemerge-sort.c:160-198 | A run no longer than the second length from the top never has the middle pair merged: some of the lengths on top go into the new run, the others stay as they are, and the rule holds at every depth. |
| `SumRule.LongPushMergesMiddle` | rebol3-source/src/core/f-stablemerge-sort.c:171-180 | A longer one does have the middle pair merged, at once. |
| `SumRule.PushLeaves` | rebol3-source/src/core/f-stablemerge-sort.c:160-198 | What any push leaves, read off the lengths before it: the collapse rests at the highest place where the lengths joined there exceed the top run and the entry below exceeds both, with entries and sums of the old lengths, or leaves one run if there is none. |
| `SumRule.PushKeepsRule` | rebol3-source/src/core/f-stablemerge-sort.c:160-198 | On a stack that obeys the rule, a push keeps it at every depth if and only if the collapse rests nowhere, or where no middle pair was merged, or where the second entry below is above the sum: a condition on the lengths before the push and the run pushed. |
| `MergeSort.MergeAt` | rebol3-source/src/core/f-stablemerge-sort.c:140-151 | Two neighbouring runs become one sorted run, the others and the rest of the array staying as they were. |
| `MergeSort.Collapse` | rebol3-source/src/core/f-stablemerge-sort.c:160-198 | The collapse keeps the runs sorted and tiling the scanned prefix, rearranges the array stably, and leaves the lengths that the rule on lengths alone prescribes; forced, it leaves one run. |
| `MergeSort.FindRun` | rebol3-source/src/core/f-stablemerge-sort.c:205-231 | The natural run at a position, the strict descent or else the ascent that starts there, as long as it goes, ends up as its stable sort, reversed in place if it descended. |
| `MergeSort.NextRun` | rebol3-source/src/core/f-stablemerge-sort.c:264-276 | A natural run shorter than the minimum is extended to the minimum, or to the end, by insertion; what is pushed is sorted and everything before it untouched. |
| `MergeSort.DescentEnd` | rebol3-source/src/core/f-stablemerge-sort.c:216-219 | The longest strictly descending run from a position. |
| `MergeSort.AscentEnd` | rebol3-source/src/core/f-stablemerge-sort.c:223-227 | The longest ascending run from a position. |
| `MergeSort.MinRun` | rebol3-source/src/core/f-stablemerge-sort.c:253-260 | The minimum run length is the number of elements over the power of two that leaves 16 to 31 whole ones, rounded up. |
| `MergeSort.Sort` | rebol3-source/src/core/f-stablemerge-sort.c:236-287 | The main loop leaves the stable sort of the array for every length and total preorder, never holding more than 64 runs when there are up to 2^27 elements. |
| `MergeSort.StableSort` | rebol3-source/src/core/f-stablemerge-sort.c:302-307 | The array becomes the one stable sort of what it held, and a permutation of it. |
| `QuickSort.Med3` | rebol3-source/src/core/f-qsort.c:111-126 | The index returned is that of an element with one of the others not above and one not below it. |
| `QuickSort.InsertionSort` | rebol3-source/src/core/f-qsort.c:143-150 | Neighbour swaps sort the range and only rearrange it. |
| `QuickSort.Partition` | rebol3-source/src/core/f-qsort.c:163-190 | The loop ends with the range in five regions around the pivot, equal, less, none, greater, equal, having only rearranged it, and changed nothing if it reports no swap. |
| `QuickSort.VecSwap` | rebol3-source/src/core/f-qsort.c:83-101 | Two blocks of equal length change places, nothing else moves. |
| `QuickSort.Gather` | rebol3-source/src/core/f-qsort.c:200-204 | The two block swaps bring the parked keys to the middle: less, equal, greater. |
| `QuickSort.QSort` | rebol3-source/src/core/f-qsort.c:132-217 | Recursion on the less part and looping on the greater part, neither containing the pivot, sort the range and only rearrange it, insertion-sort shortcut included. |
| `QuickSort.Sort` | rebol3-source/src/core/f-qsort.c:132-217 | The whole array ends up sorted and a permutation, for every length and total preorder. |
| `HashProbe.PrimeCovers` | rebol3-source/src/core/n-hash.c:95-106 | A table of prime size up to 32749 that is less than half full has an empty slot on the probe sequence of every hash value, in 32-bit arithmetic. |
| `HashProbe.TwoProbesEach` | rebol3-source/src/core/n-hash.c:95-106 | The sequence meets no slot of such a table more than twice. |
| `HashProbe.MissesSlot` | rebol3-source/src/core/n-hash.c:95-106 | For every prime size from 5 to 32749 and every hash value there is a slot the sequence never meets. |
| `HashProbe.ProbeWraps` | rebol3-source/src/core/n-hash.c:95-106 | With 65521 slots the quadratic term exceeds 32 bits, and the wrapped value probes another slot than the formula. |
| `WordHash.KeyAgrees` | rebol3-source/src/core/s-crc.c:193-221 | The word hash gives two names that differ only in case one value if and only if their lengths in bytes plus lower-cased first bytes agree in 24 bits. |
| `WordHash.AsciiAgrees` | rebol3-source/src/core/s-crc.c:193-221 | It gives them one value whenever they are ASCII. |
| `WordHash.CaseSplitsHash` | rebol3-source/src/core/s-crc.c:193-221 | U+00FF and U+0178 differ only in case but hash apart, although the hash is documented as case insensitive. |
| `WordTable.GetHashPrime` | rebol3-source/src/core/c-word.c:87-101 | The smallest table size not below the one asked for, or 0 when there is none. |
| `WordTable.SmallSizesCover` | rebol3-source/src/core/c-word.c:55-82 | Every size of the table up to 32749 has the covering property. |
| `SymbolTable.InternAllInjective` | rebol3-source/src/core/c-word.c:186-265 | On the plain list that a run of Make_Word refines, equal spellings get equal numbers and distinct spellings distinct ones. |
| `SymbolTable.InternAllNames` | rebol3-source/src/core/c-word.c:186-265 | On that list a number keeps naming the spelling it was given for. |
| `SymbolTable.Table.GetSymName` | rebol3-source/src/core/c-word.c:326-334 | The name of a symbol as stored in the pool, or the three question marks outside the table. |
| `SymbolTable.Table.WalkChain` | rebol3-source/src/core/c-word.c:235-239 | Along the alias chain from any symbol: the exact spelling, or the chain's last symbol, or the first that does not match; from a canon word of an exact table never the last, and the chain's end only when no symbol has the spelling. |
| `SymbolTable.Table.Search` | rebol3-source/src/core/c-word.c:229-240 | The probe loop returns the symbol of the spelling, the symbol to link to, or an empty slot; in an exact table the link is the end of the alias chain of its kind, and the slot the first empty one when no spelling matches but for case. |
| `SymbolTable.Table.Expand` | rebol3-source/src/core/c-word.c:105-167 | A larger hash array with all symbols entered in order; if the new size covers, every canon word of an exact table is still found first on its probe sequence; it fails exactly when no larger size exists. |
| `SymbolTable.Table.MakeWord` | rebol3-source/src/core/c-word.c:186-265 | For every table and name, whatever the hash does: the number names the spelling, the list of spellings grows by that one at most, no known symbol changes number, name or canon, and the size trap is raised exactly when the table would outgrow the largest size. In an exact table, if the name hashes like its case variants and a larger size that is needed covers: interning on the plain list, and two symbols have one canon exactly when their spellings agree but for case. |
| `SymbolTable.Table.MakeWords` | rebol3-source/src/core/c-word.c:186-265 | Over any run of Make_Word, rehashes included, whatever the hash does: every number names its spelling, so equal numbers mean equal spellings, and no symbol there before changes name or canon; the run stops early only where the table would outgrow the largest size. If the names hash like their case variants and the sizes cover: the numbers are those of interning on the plain list, and two of them have one canon exactly when their spellings agree but for case. |
| `SymbolTable.MakeDiaeresis` | rebol3-source/src/core/c-word.c:186-265 | Where the names hash apart the latter fails: from the initial table U+00FF and U+0178, which agree but for case, get two canons. |
| `SymbolTable.MakeAsciiWords` | rebol3-source/src/core/c-word.c:186-265 | From the initial table, up to 16373 ASCII names get equal numbers exactly when they are equal and one canon exactly when they agree but for case, with no further condition. |
| `SymbolTable.Table.constructor` | rebol3-source/src/core/c-word.c:383-415 | The initial table of 8191 empty slots is valid and exact. |
| `Collecting.CollectedFirst` | rebol3-source/src/core/c-frame.c:290-333 | Scanning with the bind table collects exactly the first occurrence of each new canon, in order. |
| `Collecting.DuplicateIff` | rebol3-source/src/core/c-frame.c:290-333 | The duplicate trap is sprung exactly when duplicates are forbidden and some word repeats. |
| `Collecting.CollectedDistinct` | rebol3-source/src/core/c-frame.c:290-333 | The collected canons are pairwise distinct. |
| `BindTable.Table.CollectWords` | rebol3-source/src/core/c-frame.c:290-333 | The recursive scan of nested blocks does to list and table what the flat scan of all visited words does, also when it traps in the middle. |
| `BindTable.Table.CollectEnd` | rebol3-source/src/core/c-frame.c:237-263 | Hands out the list and clears the table. |
| `BindTable.Table.CollectFrame` | rebol3-source/src/core/c-frame.c:339-366 | When it does not trap, the list is SELF or the prior words followed by accepted words only, each met in the block or in one of the blocks and parens inside it when deep, and holds the canon of every such word that it accepts; canons distinct. The bind table is clean again, trap included, if and only if SELF was not asked for, or there was no prior list, or the prior list holds SELF. |
| `BindTable.SelfStaysMarked` | rebol3-source/src/core/c-frame.c:339-366 | With the word list of a selfless frame as prior list, SELF asked for and no words to add, the table is left marked. |
| `BindBlock.AppendFrame` | rebol3-source/src/core/c-frame.c:167-204 | A new slot in both word list and cells, unset, with the word bound to it. |
| `BindBlock.BindItemsShape` | rebol3-source/src/core/c-frame.c:803-862 | Binding changes nothing of a block but where its words point. |
| `BindBlock.BindAllItems` | rebol3-source/src/core/c-frame.c:803-862 | With add-all and deep, every word at any depth points at the slot that holds its canon, or at slot 0 for SELF. |
| `BindBlock.BindAddsFirst` | rebol3-source/src/core/c-frame.c:803-862 | The frame grows by exactly the first occurrences of the words it lacked, in order. |
| `BindBlock.BindBlockWords` | rebol3-source/src/core/c-frame.c:803-862 | The recursive loop over the table refines binding by plain look-up in the frame. |
| `BindBlock.BindBlock` | rebol3-source/src/core/c-frame.c:865-903 | In every mode: each visited word whose canon the frame held before, and that the mode does not pass over, points at that slot, SELF of a selfish frame at slot 0, and each word the mode adds at its new slot; every other word, and everything in sub-blocks when not deep, points where it did. The bind table is clean before and after, and the frame's canons stay distinct. |
| `BindBlock.BindItemsBound` | rebol3-source/src/core/c-frame.c:803-862 | The same at any depth of the recursion, for the frame as it has grown by then. |
| `Evaluator.Machine.PushFunc` | rebol3-source/src/core/c-do.c:318-364 | A call frame of return cell, position and prior frame, word and function, above the top or, with keep, around the top cell, everything below unchanged. |
| `Evaluator.Machine.SeekRefinement` | rebol3-source/src/core/c-do.c:747-771 | The refinement at hand is taken without a search only where a search would find it. |
| `Evaluator.Machine.DoArgs` | rebol3-source/src/core/c-do.c:650-830 | Through the jumps for refinements out of order, the cells, the top, the next index and the variables come out as the whole-stack definition prescribes, for every block. Where no argument is borrowed the slot at place j of the slot order holds the value consumed j-th, refinements named are true and the rest is none; the cells up to the function value and the call frame are kept wherever the names of paths are distinct. |
| `Evaluator.Machine.CallOperator` | rebol3-source/src/core/c-do.c:993-1001 | An operator takes the cell on top, whatever it is, as left operand and leaves its result there, so that the stack does not grow; without one, or at the head of a block, it is refused. |
| `Evaluator.Machine.DoNext` | rebol3-source/src/core/c-do.c:887-1076 | For every block: laid out from an expression tree, whose operators take the value so far and one operand and whose calls take whole expressions, one expression leaves the tree's value on one more cell, with the index at its end, or gives its error; an operator's operand is one term. In general it gives the value or error of the recursive left-to-right evaluator wherever that has one, with every lower cell and the call frame as before; the stack grows by one if and only if the expression, past its set-words, does not begin with an operator; and the cells below are kept and no frame is written over in any block whose paths name each refinement once. |
| `Evaluator.Machine.DoBlk` | rebol3-source/src/core/c-do.c:1084-1122 | For every block: its last value, or unset, just above the top, which is where it was, whenever it completes; the value or error of its expression trees, if it is laid out from trees, and of the recursive evaluator wherever that has them. |
| `Trees.InfixFoldsLeft` | rebol3-source/src/core/c-do.c:993-1076 | Operators on literals apply from the left whatever they are: the value is the left fold of the natives over the operands, up to the first type or native error, and the expression ends where no operator word follows. |
| `Trees.ExprAgrees` | rebol3-source/src/core/c-do.c:887-1076 | Whatever expression tree a block is laid out from at a place, literals, variables, set-words, parens, operators and calls with refinements in any order, evaluating the block there yields what the tree means. |
| `Trees.GatherAgrees` | rebol3-source/src/core/c-do.c:695-829 | The walk over the parameters takes the arguments in the order in which the path names their refinements, and stops at the first argument that is missing, fails or has the wrong type, or at the first name that is no refinement. |
| `Agreement.AgreeNext` | rebol3-source/src/core/c-do.c:887-1076 | Where the recursive evaluator gives an expression a value or an error, the whole-stack one gives the same, on exactly one more cell. |
| `Growth.KeepNext` | rebol3-source/src/core/c-do.c:887-1076 | Operators in the place of values included, an expression leaves every cell below, or below the one it borrows, and the call frame as they were, and overwrites no call frame, if no path names a refinement twice: a frame has cells enough for every argument to borrow one. |
| `Growth.WalkFills` | rebol3-source/src/core/c-do.c:695-829 | Borrowed arguments included: the top falls by one cell for each of them, and every slot still under the top when the walk is through holds the value moved there last, or true for a refinement named, or what it held before. |
| `Growth.ArgsFill` | rebol3-source/src/core/c-do.c:650-830 | For a whole call of n parameters with b borrowed arguments: the top ends b cells low, and the first n - b slots are so filled. |
| `Growth.BlockCompletes` | rebol3-source/src/core/c-do.c:1084-1122 | A block completes if and only if each of its expressions does and none begins, past its set-words, with an operator; when the last one does, the error is the missing argument. |
| `Growth.SetWordBorrows` | rebol3-source/src/core/c-do.c:938-947 | x: + 2 after some value adds 2 to that value, replaces it by the sum and sets x, when it has a frame, to the sum; a block of just this is refused for want of an argument. |
| `Growth.CallBorrows` | rebol3-source/src/core/c-do.c:993-1001 | f + 2 for a function of one argument calls it on what the operator makes of none, its own empty slot, and 2. |
| `Refinements.GatherFills` | rebol3-source/src/core/c-do.c:695-829 | The slot at place j of the slot order, base parameters and then each named refinement's in path order, holds the value consumed j-th; the refinements named are true; every other slot is as it was. |
| `Refinements.GatherTakes` | rebol3-source/src/core/c-do.c:695-829 | The walk with its jumps succeeds if and only if every item of the path names a refinement and the slots in their order all get a value of their type; it has then consumed exactly those values. |
| `Refinements.OrderDistinct` | rebol3-source/src/core/c-do.c:695-829 | When the names of the path are distinct no slot is filled twice. |
| `Refinements.ItemOnce` | rebol3-source/src/core/c-do.c:747-771 | Each item of the path is used exactly once, at its place: the slots of its refinement follow those of the items before it. |
| `Refinements.OrderIrrelevant` | rebol3-source/src/core/c-do.c:747-771 | Two paths naming the same refinements in whatever order make the same slots true, leave the same ones none, and fill the same argument slots, each with the value consumed when its turn comes in that path. |
| `Base64.EncodeBase64` | rebol3-source/src/core/f-enbase.c:949-1001 | Line feeds stand in front and after every 64 digits and nowhere else; the rest is the digits of the bytes' bits, filled up with zero bits, and the padding; decoding it gives back the bytes. |
| `Base64.DecodeBase64` | rebol3-source/src/core/f-enbase.c:581-685 | For every text: bytes if and only if what precedes the padding is alphabet digits and spaces, the digits form whole groups or a last one of two or three, and the padding is the required one; the bytes are then the leading whole bytes of the digits' bits. Everything else is invalid, except that an URL-safe character as the first one missing in the alphabet gives the URL-safe reading of the whole text. |
| `Base64Spec.MeansOnce` | rebol3-source/src/core/f-enbase.c:581-685 | A text has one such reading. |
| `Base64Spec.SpaceIgnored` | rebol3-source/src/core/f-enbase.c:581-640 | Putting in or leaving out white space or a hard space anywhere before the padding changes nothing. |
| `Base64.DecodeEncoded` | rebol3-source/src/core/f-enbase.c:581-685 | Decoding inverts encoding for every byte sequence, line breaks on or off, in the padded alphabet of section 4 of RFC 4648 and the unpadded one of section 5. |
| `Base64.RoundTrip` | rebol3-source/src/core/f-enbase.c:949-1001 | Encoder and decoder composed are the identity, through the text that is the encoding. |
| `Base85.EncodeBase85` | rebol3-source/src/core/f-enbase.c:1007-1060 | Four bytes at a time: a z for zeros, otherwise the five digits of their number; one to three bytes left give the leading digits, one more than there are bytes, of the bytes filled up with zeros. Decoding the text gives back the bytes. |
| `Base85.DecodeBase85` | rebol3-source/src/core/f-enbase.c:691-767 | For every ASCII text: it gives bytes if and only if the text is a row of z's and of groups of five digits below 2^32, white space before any digit, and at the end nothing or one to four digits, whose bytes are the leading ones of the least number above all that begin so, which must be below 2^32; and it gives just those bytes. |
| `Base85.TailBytes` | rebol3-source/src/core/f-enbase.c:720-751 | The digits of a tail, incremented and scaled for the missing ones, stay below 2^32 and still begin with the bytes encoded. |
| `Base85.FourMissing` | rebol3-source/src/core/f-enbase.c:720-760 | On any text digits are missing only at its end and at most four of them, five overflowing, so the tail never takes back more bytes than its own group wrote. |
| `Base85.DecodeEncoded` | rebol3-source/src/core/f-enbase.c:691-767 | Decoding inverts encoding for every byte sequence, zero groups and tails of one to three bytes included, so no check rejects the encoder's output. |
| `Base85.RoundTrip` | rebol3-source/src/core/f-enbase.c:1007-1060 | Encoder and decoder composed are the identity, through the text that is the encoding. |

## Left out

- LongDivision.MDivide: divisors of two or more limbs whose top limb has bit 31 set, for which the source shifts a limb by 32.
- DeciMod.DeciMod: aligned divisors from 2^63 up to 2^64, for the same reason; beyond the operands its contract names, exactness is stated through the divisions of the loop being exact.
- DeciText.StringToDeci: the text is a string, reading past its end being the zero terminator; a negative exponent beyond 200000000 counts as that much, as in the source.
- DeciPrint.DeciToString: the text is returned instead of written through a pointer.
- `deci_divide`, the truncate, floor, ceil and half families, and the conversions from and to integers, floating point and binary are not modelled.
- MergeSort.Sort: the run stack is a growing sequence; that the source's 64 slots suffice is shown for up to 2^27 elements, which covers every block but not strings of more characters than that.
- MergeSteps.InsertionSort: the failure return when no temporary element can be allocated does not appear, nor do the other allocation failures of the sorts.
- QuickSort.ChoosePivot: for more than 40 elements only that the pivot lies in the range is stated; no property of the sort depends on more.
- QuickSort.VecSwap: elements are exchanged one by one, without the choice of a machine word for the exchange.
- SymbolTable.Table.MakeWord: that equal spellings keep one number and that canons are kinds is stated for names that hash like their case variants and sizes that cover, which sizes beyond 32749 are not known to do; the size of the parallel bind table, the capacity of the symbol series, and names given as zero-terminated text are not modelled; the order of names that do not match is not either.
- SymbolTable.Table.Expand: that canon words are found first, under the same condition on the size.
- WordHash.KeyAgrees: names are sequences of code points; malformed text and its trap do not appear.
- BindBlock.BindBlock: the bound block is returned where the source writes into it, so a sub-block shared by two blocks is two sub-blocks here; cyclic blocks, hidden words, functions and maps with their own bodies are left out.
- BindTable.Table.CollectFrame: a result equal to the prior list is the prior list itself in the source, which values do not show; what the stale end of the shared buffer could add to the clearing loop on the trap path is zeroing entries that are zero.
- `Resolve_Context`, `Rebind_Block`, relative binding and the other users of the bind table are not modelled.
- Evaluator.Machine.DoNext: what is read from a call frame whose own cells have been overwritten, which takes a path that names a refinement more than once and operators in the place of its arguments; for such paths the cells below are stated to be kept only where the recursive evaluator has a value. Throws, signals, tracing, re-evaluated function results, get-words in refinement paths, set-paths, get-paths, object paths, user functions and closures, protected words, setting SELF, and the fixed stack limit are not modelled.
- Trees.ExprAgrees: expressions that borrow from the stack, and operators declared with other than two arguments before their first refinement, of which the source makes none, are not read as trees.
- Evaluator.Machine.DoArgs: the type test of a RETURN parameter.
- Base64.DecodeBase64: the optional delimiter.
- Base85.DecodeBase85: bytes past 127, for which the source reads outside its table; the growth of the output buffer.
- Base-2, base-16 and base-36, whose round trips add nothing of another kind.
