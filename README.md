# go-utils in Dafny

A model of the Go utility package `utils` and its sub-package `utils/utils`,
with proofs about the model.

## The centrepiece: BigNumber

At the centre is `BigNumber` from bigNumber.go, an arbitrary-precision
decimal. A number has three parts:

- an unsigned digit text with at most one decimal separator;
- a sign of +1 or -1;
- a formatting configuration: the alphabet, the decimal separator, the base
  and `maxDecimal`.

The model follows the source's own steps, branch by branch:

- `NewBigNumber`'s parse normalisation;
- the helpers `splitDecimal`, `insertDecimalPoint` and `normalizeDecimal`;
- the carry loop of `add` and the borrow loop of `Sub`, each proved against a
  recursive function that unrolls it;
- `Multiply`'s two loops over an in-place accumulator array;
- `Divide`'s and `divideStrings`' long-division loop;
- the sign dispatch of `Plus` and `Minus`;
- `ComparedTo` with its two scanning loops;
- `AbsoluteValue`, `IntegerValue`, `ShiftedBy`, `Precision`,
  `DecimalPlaces` and `ExponentiatedBy`.

Each operation is then tied to arithmetic. `Scaled(c, v, f)` reads a text as
the integer `value * base^f`. `SignedScaled` adds the sign. The value lemmas
state what each operation computes in those terms:

- the sum, the difference and the product;
- the quotient and the remainder;
- the order given by the comparison;
- multiplication by `base^places` for a shift.

Where the source computes something other than what it evidently means, the
model keeps the code as written, and a lemma exhibits the input that shows
it. A corrected definition sits next to it, with the intended property proved
(see "## Findings").

The sums, the product and the quotient that the package's own BigNumber test
checks (12 + 12, 0.02 + 0.01, -1 + -1, -1 - -1, 0.02 × 0.01 and 1 / 2) are
restated as values in `BigExamples`, for any configuration with separator "."
whose first symbols are "0", "1" and "2".

A Go panic is a value of `Outcomes.Outcome`: `Done(value)` or
`Panic(message)`.

## The smaller parts

Most files are modelled in their own form. A loop is a method with
invariants, proved against a function. A type whose methods update fields is
a class. Expressions become functions.

- buffer.go: the hex encoder and decoder.
- toggle.go: a cyclic toggle. It is a class whose `Switch` updates the
  current position.
- set.go: a map-backed set. It is a class over a `map`, with union,
  intersection and difference.
- slice.go: chunk, fold, map, filter, pad and group-by.
- utils.go: character classes, `getValidRef`, `toComment`, `{k}`
  templating, `FindVariableNames`, path-pattern parsing and matching, and the
  `Cookie` key/value table (a class over a `map`).
- utils/utils.go: the near-copies of the helpers above. Each is stated equal
  to the root model, or modelled afresh where it differs.
- convert.go: positional string-to-integer conversion and its symbol tables.
- numberSystem.go: rendering in Chinese numerals.
- datetime.go: the token-substituting formatter over integer date fields,
  the Gregorian leap-year rule, `MinuteOfDay` and `IsToday`.
- func.go: pipes and composition of functions. The call-limited `Times`
  closure is a class.
- result.go and options.go: the Result and Option wrappers.
- utils/validator.go: integer predicates and two combinators.

Time is not read from a clock: the current moment is a parameter.

Go's truncated `/` and `%` are modelled explicitly as `DivMod.GoQuo` and
`DivMod.GoRem`.

## Model

| member | source | states |
|---|---|---|
| BigNumbers.CanonicalDigits | bigNumber.go:50-56 | The text left after parsing is canonical: not empty, not starting with ".", and starting with "0" only as "0" itself or before the separator |
| BigNumbers.NewBigNumber | bigNumber.go:44-69 | The sign is -1 exactly when the text starts with "-"; the value is a canonical text; the configuration is always the default one, whatever the input |
| BigNumbers.SetConfig | bigNumber.go:71-83 | A missing configuration installs the default one, any other replaces the number's configuration; value and sign are unchanged |
| BigNumbers.SetBase | bigNumber.go:265-267 | Only the base of the configuration changes |
| BigNumbers.String | bigNumber.go:658-663 | The text gets a "-" in front exactly when the sign is -1 and the text is not "0" |
| BigNumbers.StringRoundTrip | bigNumber.go:658-663 | String undoes NewBigNumber on every canonical text other than "0." that does not start with "-": t prints as t, and "-" + t prints as "-" + t unless t is "0" |
| BigNumbers.SplitDecimal | bigNumber.go:683-691 | Neither part holds the separator (SplitDecimalIsSplit and SplitDecimalOf say which parts they are) |
| BigNumbers.SplitDecimalIsSplit | bigNumber.go:683-691 | splitDecimal returns the first piece of strings.Split, and the second piece or "" |
| BigNumbers.SplitDecimalOf | bigNumber.go:683-691 | Splitting ip + sep + fp, with no separator in either part, gives back ip and fp |
| BigNumbers.InsertDecimalPoint | bigNumber.go:694-703 | A count of 0 or less leaves the text alone; otherwise the text is padded to at least decPlaces + 1 symbols and gains one separator |
| BigNumbers.InsertThenSplit | bigNumber.go:694-703 | After insertDecimalPoint with decPlaces > 0, the parts are a non-empty integer part and exactly decPlaces fraction symbols; together they are the input with "0"s padded on the left |
| BigNumbers.NormalizeDecimalParts | bigNumber.go:705-716 | normalizeDecimal keeps both integer parts, puts one separator after each, and right-pads both fractions with "0" to the longer length |
| BigNumbers.PaddedValue | bigNumber.go:705-716 | Padding a fraction with "0"s to f places gives the value scaled to f |
| BigNumbers.CanonicalDigitsValue | bigNumber.go:50-56 | Canonicalising a well-formed text keeps it well formed, keeps its fraction and keeps its digit value |
| BigNumbers.NewBigNumberValue | bigNumber.go:44-69 | For a well-formed default-configuration text, NewBigNumber gives a positive, well-formed number with the same fraction and the same value |
| BigNumbers.NewBigNumberTrimmed | bigNumber.go:50 | Trimming "0"s on the left before NewBigNumber changes nothing |
| BigNumbers.DecimalPlaces | bigNumber.go:257-263 | 0 when there is no separator; for a well-formed text, the length of its fraction |
| BigNumbers.IsInteger | bigNumber.go:544-546 | True for a text without the separator; for a well-formed text, true exactly when it has no fraction symbols |
| BigNumbers.Precision | bigNumber.go:626-628 | The number of symbols once every separator is removed |
| BigNumbers.PrecisionWellFormed | bigNumber.go:626-628 | For a well-formed text, Precision is the integer part's length plus the fraction's length |
| BigNumbers.AbsoluteValue | bigNumber.go:196-201 | A non-negative number is returned as it is; a negative one is rebuilt by NewBigNumber from its text, so it gets sign +1, a canonical text and the default configuration |
| BigNumbers.AbsoluteValueMagnitude | bigNumber.go:196-201 | The absolute value of a negative well-formed number is positive, with the same fraction and the same value |
| BigNumbers.IntegerValue | bigNumber.go:518-521 | The result is NewBigNumber of the integer part: canonical, in the default configuration (IntegerValueTruncates gives its value) |
| BigNumbers.IntegerValueTruncates | bigNumber.go:518-521 | For a well-formed number, IntegerValue is positive, has no fraction, and is worth the integer part: the value truncated toward zero, with the sign dropped |
| BigDigits.ToInteger | bigNumber.go:203-209 | The first position where the text occurs in the alphabet, as strings.Index gives it; 0 whenever it does not occur |
| BigDigits.DigitOfSymbol | bigNumber.go:203-216 | toInteger(toNumber(d)) == d for every digit d below the base |
| BigDigits.DigitBelowBase | bigNumber.go:203-209 | A symbol among the first base symbols reads as a value below the base |
| BigDigits.ValRepresent | bigNumber.go:296-318 | A number below base^w reads back from its w-symbol representation, so writing digits and reading them back are inverse |
| BigDigits.RepresentDigits | bigNumber.go:296-318 | Every symbol written for a number is one of the first base symbols |
| BigDigits.ValBound | bigNumber.go:296-318 | A digit string of length n is worth less than base^n |
| BigAddSub.Add | bigNumber.go:282-321 | add as written equals AddResult: normalizeDecimal, the carry loop, the separator put back, "0"s trimmed on the left, NewBigNumber (AddValueIn gives its value) |
| BigAddSub.CarryLoop | bigNumber.go:296-314 | From the right, skipping the separator, the loop writes the sum of the two digit strings in the base, on as many symbols as the sum needs and at least the longer length |
| BigAddSub.CarryOutTotal | bigNumber.go:296-314 | The carry loop writes the sum of both digit strings, on as many symbols as the sum needs and at least as many as the longer string has |
| BigAddSub.Sub | bigNumber.go:324-383 | Sub as written equals SubResult: normalizeDecimal, the borrow loop, the clean-up, NewBigNumber (SubValueIn gives its value) |
| BigAddSub.BorrowLoop | bigNumber.go:338-361 | The loop writes exactly what the column-by-column unrolling BorrowOut writes, skipping the separator in both texts (BorrowOutTotal gives its value) |
| BigAddSub.BorrowOutTotal | bigNumber.go:338-361 | The borrow loop writes the minuend plus base^m minus the subtrahend, on m symbols |
| BigAddSub.WrappedDifferenceValue | bigNumber.go:338-361 | Read back, the m symbols are the difference when the minuend is the larger, and base^m minus the difference otherwise: Sub assumes a minuend at least the subtrahend |
| BigValues.AddValueIn | bigNumber.go:282-321 | For well-formed operands in one configuration, add gives a positive, well-formed number whose fraction has the longer fraction's length and whose scaled value is the sum of the operands' values |
| BigValues.AddValue | bigNumber.go:282-321 | The same, for default-configuration numbers |
| BigValues.SubCleanUpValue | bigNumber.go:362-380 | Sub's clean-up keeps the value of the symbols written, whenever the separator goes back in front of at least one symbol, or not at all |
| BigValues.SubValueIn | bigNumber.go:324-383 | For well-formed operands in one configuration with the receiver at least the argument (and no bare trailing separator), Sub gives a non-negative, well-formed number worth the difference |
| BigValues.SubValue | bigNumber.go:324-383 | The same, for default-configuration numbers |
| BigNumbers.ComparedTo | bigNumber.go:219-254 | No ensures of its own: BigCompare.Compare proves the two scanning loops compute it; ComparedToMagnitudes, LongerIntPart and ComparedToFixedOrder state where its sign orders the numbers, and ComparedToSigns, ComparedToWholeIntPart and ComparedToNegatives where it does not |
| BigCompare.Compare | bigNumber.go:219-254 | ComparedTo run with its two loops gives the value of the ComparedTo function |
| BigCompare.FirstDifferenceLoop | bigNumber.go:232-237 | The integer loop stops at the first position where two different texts of one length differ |
| BigCompare.CompareFractionsLoop | bigNumber.go:240-251 | The fraction loop reads a missing symbol as 0 and returns the first difference of digit values, or 0 |
| BigCompare.LexOrder | bigNumber.go:232-237 | For digit strings of one length, the first differing symbol decides which is worth more |
| BigCompare.CompareFractionsOrder | bigNumber.go:240-251 | For fractions of one length, the fraction loop returns a number with the sign of the difference of their values |
| BigCompare.CompareFractionsPadded | bigNumber.go:240-251 | Reading a missing fraction symbol as 0 is the same as padding the shorter fraction with "0"s |
| BigCompare.LongerIntPart | bigNumber.go:230-231 | A canonical number with the longer integer part is worth more, so the length difference has the right sign |
| BigCompare.ComparedToMagnitudes | bigNumber.go:226-253 | For canonical well-formed operands of one sign, ComparedTo orders the magnitudes whenever the integer parts differ in length, are equal, or differ first at a single-digit part |
| BigCompare.CompareMagnitudesOrder | bigNumber.go:226-253 | The corrected comparison of magnitudes has the sign of the difference of the values |
| BigCompare.ScaledZero | bigNumber.go:219-254 | A scaled value is zero exactly when every digit is "0" |
| BigCompare.ComparedToFixedOrder | bigNumber.go:219-254 | The corrected ComparedTo has the sign of the difference of the signed values, for all canonical well-formed operands |
| BigCompare.ComparedToSigns | bigNumber.go:220-225 | As written, different signs always return 1: -1 comes out above 1 |
| BigCompare.ComparedToWholeIntPart | bigNumber.go:235 | As written, toInteger of the whole integer part "12" is its position 1, so 12 and 11 compare as equal |
| BigCompare.ComparedToNegatives | bigNumber.go:226-253 | As written, negatives are compared by magnitude without reversing: -2 comes out above -1 |
| BigSigned.Plus | bigNumber.go:609-623 | No ensures of its own: one sign adds the magnitudes under that sign, otherwise the operand IsGreaterThan favours loses the other under its own sign; PlusSameSign, PlusMixedSigns, PlusMixedValue and PlusWrongSign state its value |
| BigSigned.PlusSameSign | bigNumber.go:609-614 | Plus of operands of one sign is their sum: well formed, with the longer fraction's length, and signed value the sum of the signed values |
| BigSigned.PlusMixedSigns | bigNumber.go:615-622 | With mixed signs, IsGreaterThan always holds, so Plus is always a.Sub(b) under a's sign |
| BigSigned.PlusMixedValue | bigNumber.go:615-618 | That is the signed sum whenever the receiver's magnitude is at least the argument's |
| BigSigned.PlusWrongSign | bigNumber.go:615-618 | When the argument has the other sign and the larger magnitude, the true sum has the argument's sign, yet Plus keeps the receiver's sign |
| BigSigned.Minus | bigNumber.go:577-591 | No ensures of its own: one sign subtracts the smaller by ComparedTo from the larger, negated when the argument is larger; different signs add the magnitudes under the receiver's sign; MinusSameSign and MinusValue state its value |
| BigSigned.MinusSameSign | bigNumber.go:577-586 | For operands of one sign whose integer parts the comparison orders correctly, Minus is well formed and its signed value is the difference of the signed values |
| BigSigned.MinusValue | bigNumber.go:577-591 | Minus is the difference of the signed values whenever ComparedTo orders the magnitudes correctly |
| BigSigned.SubFixedValue | bigNumber.go:369-376 | The corrected Sub, which trims only when there are fraction places, gives the difference including for a bare trailing separator |
| BigSigned.SubBareSeparator | bigNumber.go:331-376 | As written, "10." minus "0" has no fraction places, yet Sub trims the "0" of "10" and returns 1; the corrected Sub returns 10 |
| BigSigned.PlusFixedValue | bigNumber.go:609-623 | The corrected Plus, which decides by magnitude, gives the sum of the signed values for all canonical well-formed operands of one configuration |
| BigSigned.MinusFixedValue | bigNumber.go:577-591 | The corrected Minus gives the difference of the signed values for all canonical well-formed operands of one configuration |
| BigMultiply.MultiplyRow | bigNumber.go:403-411 | The inner loop for row i updates the accumulator array in place to the row's cells, and nothing else changes |
| BigMultiply.RowValue | bigNumber.go:403-411 | A row adds digit1 times the second string's digits, each at the weight of its cell |
| BigMultiply.MultiplyCells | bigNumber.go:402-412 | The two loops leave the accumulator of length len1 + len2 holding the product cells |
| BigMultiply.ProductDigits | bigNumber.go:402-412 | After the loops every cell is a single digit below the base, and the cells are worth the product of the two digit strings |
| BigMultiply.MultiplyDigits | bigNumber.go:402-417 | The loops and the symbol loop write the product of the two digit strings on len1 + len2 symbols, leading zeros included |
| BigMultiply.MultiplyOperandTexts | bigNumber.go:387-400 | When either operand has a separator both are normalised; the digit strings are the padded digits, and m is twice the common fraction length (zero without a separator) |
| BigMultiply.Multiply | bigNumber.go:386-449 | Multiply as written: the digit loops, the clean-up, NewBigNumber, and the product of the signs |
| BigProduct.MultiplyCleanUpValue | bigNumber.go:419-445 | Multiply's clean-up keeps the value of the product digits, unless it trims "0"s at the end of an integer text: with places, the fraction is padded to at least maxDecimal symbols |
| BigProduct.ProductTextValue | bigNumber.go:386-445 | For well-formed operands in one configuration, the text Multiply builds is a well-formed text worth the product of the operands' values |
| BigProduct.MultiplyValueIn | bigNumber.go:386-449 | With fraction places or a positive maxDecimal, the result's sign is the product of the signs and its magnitude is the product of the magnitudes, rescaled to the kept fraction places |
| BigProduct.MultiplyFixedValue | bigNumber.go:436-438 | The corrected Multiply, which never trims an integer product, gives the product for all well-formed operands, integers included |
| BigProduct.MultiplyFixedSigned | bigNumber.go:386-449 | With the signs NewBigNumber gives, the corrected Multiply gives the signed product |
| BigProduct.MultiplyDropsIntegerZeros | bigNumber.go:436-438 | As written, with maxDecimal at most 0, "10" times "10" trims the integer product 100 to 1 |
| BigDivide.LongDivision | bigNumber.go:476-485 | The loop takes n steps, brings down the next digit (0 past the end), writes the quotient digit of the running remainder and keeps the remainder |
| BigDivide.QuotientValue | bigNumber.go:476-485 | The n symbols written are digits worth the digits brought down (the dividend followed by "0"s past its end) divided by the divisor |
| BigDivide.Divide | bigNumber.go:452-502 | Divide as written: the divisor text "0" panics; the loop divides by the value of the aligned divisor's first symbol, which panics when that is 0 |
| BigDivide.DivideOperandTexts | bigNumber.go:457-472 | Both operands are written as digits at the longer fraction length, the shorter fraction padded with "0"s |
| BigDivide.QuotientText | bigNumber.go:487-497 | The separator goes back maxDecimal symbols from the right, the fraction is padded, and a trailing separator is dropped |
| BigDivide.QuotientTextValue | bigNumber.go:487-499 | With maxDecimal >= 0, the number made of the quotient text has exactly maxDecimal fraction symbols and is worth the quotient symbols' value |
| BigDivide.DivideValueIn | bigNumber.go:452-502 | Divide divides the dividend, widened by maxDecimal places, by the lead digit of the aligned divisor, with the product of the signs |
| BigDivide.DivideFixedValue | bigNumber.go:452-502 | The corrected Divide panics exactly for a divisor worth 0, and otherwise gives the truncated quotient at maxDecimal places with the product of the signs |
| BigDivide.DivideOneByTen | bigNumber.go:482-483 | As written, "1" divided by "10" is 1, because only the divisor's first symbol is used |
| BigDivide.DivideByPointOne | bigNumber.go:476-485 | As written, "1" divided by "0.1" panics, since the divisor's first symbol is "0"; the corrected Divide returns a number |
| BigModulo.DivideStrings | bigNumber.go:147-193 | divideStrings as written: the text "0" panics; otherwise the operands are normalised, the long-division loop runs, and both the quotient text and the remainder symbol are returned |
| BigModulo.StringsOperandTexts | bigNumber.go:152-167 | Both operands are written as digits at the longer fraction length; the divisor's first digit is the first symbol of its integer part |
| BigModulo.Mod | bigNumber.go:594-601 | Mod panics on the divisor text "0" and otherwise returns divideStrings' remainder |
| BigModulo.ModValueIn | bigNumber.go:594-601 | Mod is the dividend, widened by maxDecimal places, modulo the lead digit of the divisor |
| BigModulo.ModFixedValue | bigNumber.go:594-601 | The corrected Mod panics exactly for a divisor worth 0, and otherwise keeps the dividend's sign and is worth the remainder of the magnitudes |
| BigModulo.ModOneByTen | bigNumber.go:594-601 | As written, "1" mod "10" is "0"; corrected, it is worth 1 |
| BigPower.Power | bigNumber.go:505-511 | For n factors, the sign is negative exactly for a negative base and odd n, and for a base without a fraction the result is an integer worth the base to the n |
| BigPower.ExponentiatedBy | bigNumber.go:505-511 | The loop of Multiply calls gives Power; an exponent of 0 or less gives the number one |
| BigPower.PowerNext | bigNumber.go:507-509 | One loop step multiplies a^i by the base to give a^(i+1) |
| BigShift.PadZerosRightShape | bigNumber.go:643-645 | The first padding loop keeps the fraction as a prefix and appends only "0"s, up to the needed length |
| BigShift.PadZerosLeftShape | bigNumber.go:649-651 | The second padding loop keeps the integer part as a suffix and puts only "0"s in front |
| BigShift.ShiftedBy | bigNumber.go:631-655 | ShiftedBy as written: no shift returns the number itself; otherwise one of the padding loops runs and NewBigNumber reads the moved text |
| BigShift.PadFraction | bigNumber.go:643-645 | The loop appends "0"s while the fraction is shorter than places |
| BigShift.PadInteger | bigNumber.go:649-651 | The loop puts "0"s in front while the integer part is shorter than places |
| BigShift.ShiftValue | bigNumber.go:631-655 | ShiftedBy gives a well-formed text whose magnitude is the original times base^places; any nonzero shift makes the sign positive |
| BigShift.ShiftBack | bigNumber.go:631-655 | Shifting by places and then by -places gives back the original value |
| BigShift.ShiftDropsSign | bigNumber.go:646-653 | As written, -1.5 shifted one place right is the positive 15 |
| BigShift.ShiftFixedValue | bigNumber.go:631-655 | With the sign kept, a shift multiplies the signed value by base^places |
| BigExamples.TwelvePlusTwelve | utils_test.go:561-567 | 12 + 12 is a positive whole number worth 2·(base + 2): 24 in base ten |
| BigExamples.HundredthsSum | utils_test.go:579-584 | 0.02 + 0.01 has two fraction symbols and is worth 3 at two places: 0.03 |
| BigExamples.MinusOnes | utils_test.go:602-610 | -1 + -1 is worth -2 and -1 - -1 is worth 0 |
| BigExamples.HundredthsProduct | utils_test.go:579-588 | 0.02 × 0.01 is positive, with maxDecimal fraction symbols worth 2·base^(maxDecimal - 4): 0.000200 with six places in base ten |
| BigExamples.OneByTwo | utils_test.go:612-616 | 1 / 2 is positive, with maxDecimal fraction symbols worth base^maxDecimal / 2: 0.500000 with six places in base ten |
| HexBuffer.NewBuffer | buffer.go:12-14 | A new buffer is empty |
| HexBuffer.Hex | buffer.go:20-29 | The text has two symbols per byte, the high nibble then the low nibble, taken from "0123456789abcdef" |
| HexBuffer.String | buffer.go:20-29 | The loop builds exactly Hex of the buffer, 2·Length() symbols long |
| HexBuffer.NibbleIndexIsIndex | buffer.go:34-35 | The nibble lookup is strings.Index of the one-symbol string in the table: the position, or -1 |
| HexBuffer.NibbleOfSymbol | buffer.go:6-9 | Each table symbol reads back as its own position |
| HexBuffer.Unhex | buffer.go:31-39 | Decoding gives one byte per pair of symbols, half as many bytes as symbols (the bytes themselves: UnhexAt) |
| HexBuffer.Load | buffer.go:31-39 | The existing bytes are kept and Unhex of the text is appended; an odd-length text panics at data[i+1] |
| HexBuffer.UnhexAt | buffer.go:31-39 | Byte k of the decoded text comes from symbols 2k and 2k + 1 |
| HexBuffer.UnhexHex | buffer.go:20-39 | Round trip: loading the text of a buffer into an empty buffer gives the buffer back |
| HexBuffer.LoadedTestText | utils_test.go:455-465 | Decoding the test's 46-symbol text gives 0x32 first and 0x10 last |
| Toggles.PositionPeriodic | toggle.go:12-15 | After as many switches as there are values, the toggle is back at the position it started from |
| Toggles.Toggle.UseToggle | toggle.go:21-23 | UseToggle starts at index 0, so Value is the first argument |
| Toggles.Toggle.Value | toggle.go:17-19 | Value reads the current value and changes nothing; with no values the index is out of range |
| Toggles.Toggle.Switch | toggle.go:12-15 | The index becomes (index + 1) mod n and the new value is returned, and 0 <= index < n is kept; with no values the modulo panics and nothing changes |
| Toggles.FourSwitches | utils_test.go:143-152 | Through 1..9, four switches reach 5 |
| Toggles.OnOff | utils_test.go:124-131 | Starting at "on", one switch gives "off" and the next gives "on" again |
| Sets.Set.Empty | set.go:23-24 | A new set is empty |
| Sets.Set.Has | set.go:13-16 | Has holds exactly for stored keys, whatever the stored flag |
| Sets.Set.Add | set.go:18-21 | After Add(v), Has(v) holds, the result is true, and every other key is unchanged |
| Sets.Set.Values | set.go:5-11 | Each member is listed exactly once, and only members are listed |
| Sets.Set.Union | set.go:34-43 | A fresh set holding k exactly when k is in either set; both operands are unchanged |
| Sets.Set.Intersection | set.go:45-53 | A fresh set holding k exactly when k is in both sets; both operands are unchanged |
| Sets.Set.Difference | set.go:55-63 | A fresh set holding k exactly when k is in the receiver and not in other; both operands are unchanged |
| Sets.NewSet | set.go:23-29 | A fresh set holding exactly the given values |
| Sets.IntersectionExample | utils_test.go:467-475 | A..G and F..L intersect in F and G |
| Slices.Chunk | slice.go:4-14 | With size > 0 the chunks concatenate to the input, all but the last have length size, and the last has 1..size; a negative size panics |
| Slices.ChunkingUnique | slice.go:4-14 | Any chunking with those properties is the one Chunk builds |
| Slices.LastChunkLength | slice.go:4-14 | The last chunk holds the length modulo size, or a whole chunk when that is zero |
| Slices.Reduce | slice.go:17-25 | A left fold from initialValue |
| Slices.FoldLeftAppend | slice.go:17-25 | Folding a concatenation folds the second part from where the first left off |
| Slices.SumExample | utils_test.go:163-170 | Summing 1, 2, 3, 5, 6 from 0 gives 17 |
| Slices.Map | slice.go:27-35 | The same length, with result[i] the mapper applied to slice[i] |
| Slices.Filter | slice.go:37-47 | The elements that satisfy the predicate, in input order |
| Slices.FilteredMembers | slice.go:37-47 | The filtered slice holds exactly the input elements that satisfy the predicate |
| Slices.FilteredAppend | slice.go:37-47 | Filtering a concatenation concatenates the filtered parts, so order is kept |
| Slices.PadEnd | slice.go:49-62 | An input of at least targetLength is returned as it is; otherwise the result has length targetLength, the input as prefix and padValue after it |
| Slices.PadStart | slice.go:64-79 | An input of at least targetLength is returned as it is; otherwise the result has length targetLength, padValue first and the input as suffix |
| Slices.GroupBy | slice.go:81-90 | Each key that occurs maps to the items with that key, in input order |
| Slices.GroupMembers | slice.go:81-90 | A group holds exactly the items whose key it is |
| TextUtils.InRangeInclusive | utils.go:69-71 | Both bounds are in range, and nothing outside them is |
| TextUtils.IsAlphanumExactly | utils.go:73-90 | IsAlphanum holds exactly for the 62 ASCII letters and digits |
| TextUtils.GetValidRef | utils.go:92-104 | The loop keeps, in order, the characters that getValidRef's test accepts |
| TextUtils.ValidRefMembers | utils.go:92-104 | Kept are exactly the characters that are neither the symbol nor a space and are alphanumeric or above 0xff |
| TextUtils.ToComment | utils.go:106-111 | No comment symbols panics; with an even number, val goes between the first two; with an odd number, the first symbol goes in front |
| TextUtils.TemplateKeyUniform | utils.go:32-50 | The named cases of Template's placeholder switch agree with its default: an odd-length syntax is a prefix, an even-length one is cut in halves around the key |
| TextUtils.Template | utils.go:32-67 | For each entry, in the loop's order, the first occurrence of that key's placeholder is replaced by its value |
| TextUtils.TemplateHelloWorld | utils_test.go:13-22 | "{a} {b}" gives "hello world", whichever key the loop visits first |
| TextUtils.TemplateQuestionMarks | utils_test.go:24-30 | With "?" every key shares one placeholder, so "? ?" gives "1 2" or "2 1" by map order |
| TextUtils.ScanNames | utils.go:168-188 | The scanning loop collects the names that follow each opening symbol |
| TextUtils.FindVariableNames | utils.go:156-190 | The names between the two halves of the delimiter, in order |
| TextUtils.NamesAvoidEnds | utils.go:168-188 | Every name stops before a space and before the closing symbol |
| TextUtils.NamesInBraces | utils_test.go:419-426 | "{name} with {code}" with "{}" gives ["name", "code"] |
| TextUtils.AtDelimiterFindsNothing | utils.go:161-167 | As written, a one-character delimiter has an empty opening symbol, so "hi @name" with "@" gives no names |
| TextUtils.FindVariableNamesIntended | utils.go:161-167 | With the intended split, an odd-length delimiter is the opening symbol |
| TextUtils.AtDelimiterIntended | utils.go:161-167 | With the intended split, "hi @name" with "@" gives ["name"] |
| TextUtils.PathParse | utils.go:198-219 | Split on "/" and keep one name per non-empty piece, with the ":" or "{}" markers stripped |
| TextUtils.PathNamesCount | utils.go:198-219 | A parse that succeeds gives one name per non-empty piece, and none of its pieces was a bare ":" |
| TextUtils.UserRouteNames | utils_test.go:98-107 | "/user/:id" parses to ["user", "id"] and "/user/12" to ["user", "12"] |
| TextUtils.PathValuesMeaning | utils.go:343-353 | Every recorded name stands where the real name differs and maps to that real name, and every such position is recorded |
| TextUtils.GetPathValue | utils.go:343-353 | Parse both paths and record each pattern name whose real counterpart differs; a real path with fewer segments panics |
| TextUtils.UserRouteValue | utils_test.go:98-107 | "/user/:id" against "/user/12" maps "id" to "12" and nothing else |
| TextUtils.Cookie.constructor | utils.go:192-196 | A Cookie before NewCookie is Go's zero struct: empty delimiter and joiner, and a nil table that reads as empty but was never made |
| TextUtils.Cookie.NewCookie | utils.go:355-365 | Split on the delimiter, then each item on the joiner, and map the first part to the second into a freshly made table; an item without the joiner panics |
| TextUtils.CookieTableKeys | utils.go:355-365 | Every item of a table that was built has a key and a value, and its key is present |
| TextUtils.CookieTableLast | utils.go:355-365 | An item whose key no later item carries gives that key its value |
| TextUtils.CookieTableOnlyKeys | utils.go:355-365 | Only the keys of items are present |
| TextUtils.Cookie.PutOne | utils.go:367-370 | On a made table one key is inserted or overwritten and every other entry is unchanged; on a zero Cookie (nil map) it panics with "assignment to entry in nil map" and changes nothing |
| TextUtils.ZeroCookiePutOne | utils.go:367-370 | PutOne on a Cookie that NewCookie never filled panics |
| TextUtils.CookieParse | utils_test.go:87-92 | The test's NewCookie("a=b&c=23&k=66", "&", "=") then PutOne("s", "v") leaves exactly a ↦ b, c ↦ 23, k ↦ 66, s ↦ v |
| TextUtils.CookieTestTable | utils_test.go:87-89 | The test's cookie text builds the table a ↦ b, c ↦ 23, k ↦ 66 |
| TextUtils.Cookie.GetAll | utils.go:372-374 | The table itself |
| TextUtils.ToLowerCamelCase | utils.go:397-402 | An upper-case ASCII first character becomes its lower-case letter (code + 32), any other first character stays, the rest is kept; "" is returned unchanged |
| UtilsPackage.Template | utils/utils.go:14-29 | Each entry replaces the first "{k}" of its key, as the root Template does with "{}" |
| UtilsPackage.BracePlaceholder | utils/utils.go:26 | The "{k}" this copy looks for is the root Template's placeholder for the "{}" syntax |
| UtilsPackage.TemplateHelloWorld | utils/utils_test.go:10-20 | "{a} {b}" gives "hello world" in either map order |
| UtilsPackage.PathParse | utils/utils.go:37-58 | Behaves exactly as the root pathParse |
| UtilsPackage.GetPathValue | utils/utils.go:60-70 | Behaves exactly as the root GetPathValue |
| UtilsPackage.PutOneThenGetAll | utils/utils.go:84-91 | After PutOne on a made table, GetAll shows the new key and value and every other entry unchanged; on a zero Cookie the nil-map panic comes back |
| UtilsPackage.Chunk | utils/utils.go:188-198 | The same partition property as the generic Chunk |
| UtilsPackage.Compose | utils/utils.go:142-153 | The same as func.go's Compose: it panics exactly on an empty list |
| UtilsPackage.ToLowerCamelCase | utils/utils.go:114-119 | The same as the root copy: an upper-case ASCII first letter is lowered and the rest kept; "" is returned unchanged |
| Convert.FirstIndex | convert.go:152-159 | The first index whose element equals ele, or -1 when there is none |
| Convert.IndexOf | convert.go:152-159 | The loop returns at the first match, giving FirstIndex |
| Convert.SymbolsDistinct | convert.go:162 | No symbol of "0-9A-Za-z-$" appears twice |
| Convert.StringToNumberCallback | convert.go:161-168 | The symbol's position in the table, or -1 when it is absent or its position exceeds the base |
| Convert.CallbackOfSymbol | convert.go:161-168 | On one symbol: its position when that is at most the base (the base itself included), and -1 above |
| Convert.NumberToStringCallback | convert.go:170-175 | The symbol at index remainder, an empty unit and the table length 64; a remainder outside the table panics |
| Convert.StringToNumber | convert.go:205-225 | Base 0 means 10; from the right, each value times the power is added; a value above the base returns 0 |
| Convert.ValueFromHorner | convert.go:212-224 | Accumulating from the right with powers gives the positional value read from the left |
| Convert.HornerBound | convert.go:212-224 | Digits in [0, base) give a value in [0, base^n) |
| Convert.NumberOfHorner | convert.go:212-224 | With no digit above the base, the result is the positional value |
| Convert.ThirtyThousand | utils_test.go:411-417 | "30000" in base 10 is 30000 |
| Convert.DigitEqualToBase | convert.go:164-166 | As written, a digit equal to the base is accepted: "1A" in base 10 reads as 20 |
| Convert.TwentyIsTwenty | convert.go:205-225 | "20" also reads as 20, so two texts give one number |
| Convert.UnknownSymbolIsMinusOne | convert.go:161-168 | As written, an unknown symbol counts as the digit -1: "1?" reads as 9 |
| Convert.CheckedValue | convert.go:205-225 | With every digit valid, the checked conversion is the positional value, in [0, base^n) |
| Convert.StringToNumberChecked | convert.go:205-225 | The intended loop: a value outside [0, base) returns 0 |
| Convert.CheckedRejectsDigitEqualToBase | convert.go:164-166 | Corrected, "1A" in base 10 is rejected |
| NumberSystem.NumeralsFor | numberSystem.go:9-15 | Either table has ten one-character digits, 零 for zero and for no other digit, and an empty unit at place 0 |
| NumberSystem.TrailingZeroRemoved | numberSystem.go:55-60 | The result does not end in 零 and is no longer than the input |
| NumberSystem.TrailingZeroRemovedDeletesZeros | numberSystem.go:55-60 | The clean-up deletes 零 characters and nothing else |
| NumberSystem.TrailingZeroRemovedIdempotent | numberSystem.go:55-60 | Removing trailing zeros twice removes nothing more |
| NumberSystem.RemoveTrailingZero | numberSystem.go:55-60 | The loop deletes the first 零 while the text ends in 零 |
| NumberSystem.ToChineseNumber | numberSystem.go:8-53 | The method computes ChineseNumber: the table choice, the base check, the place-by-place loop, then the sign, the zero case or the clean-up |
| NumberSystem.SignsShareDigits | numberSystem.go:46-51 | For non-zero n, -n is "负" before the loop's text as it stands, and n is that text cleaned |
| NumberSystem.ZeroIsLing | numberSystem.go:48-49 | Zero renders as 零 in every base up to ten |
| NumberSystem.SingleDigit | numberSystem.go:25-51 | A number below the base is its digit's character |
| NumberSystem.BaseAboveTen | numberSystem.go:20-22 | A base above ten gives "" |
| NumberSystem.BelowSixPlaces | numberSystem.go:10-37 | Numbers of up to six places in bases two to ten never panic |
| NumberSystem.TensContracted | numberSystem.go:28-29 | A 2 or a 3 at the tens place is written 廿 or 卅 alone |
| NumberSystem.MillionPanics | numberSystem.go:10-40 | 1000000 in base ten runs past the six place words and panics, so six places is the exact bound |
| NumberSystem.MinusOneHundredTwentyThree | utils_test.go:341-342 | -123 renders as 负一百廿三 |
| NumberSystem.TwentyOne | utils_test.go:344-345 | 21 renders as 廿一 |
| NumberSystem.Twenty | utils_test.go:347-348 | 20 renders as 廿 |
| NumberSystem.OneHundred | utils_test.go:350-351 | 100 renders as 一百 |
| NumberSystem.MinusTen | numberSystem.go:46-51 | The clean-up is skipped for negatives: -10 renders as 负一十零 and keeps its trailing 零 |
| DateTimes.NatTextValue | datetime.go:65-72 | The decimal text that ToString gives reads back as the number |
| DateTimes.DecimalTextInjective | datetime.go:65-72 | Decimal text is one-to-one, signs included |
| DateTimes.PaddedDigits | datetime.go:65-72 | The number's text, split into characters, padded at the start with "0" to the token's width and joined |
| DateTimes.DateTimeFormat | datetime.go:40-78 | Each token in the fixed key order replaces its first occurrence with its value, padded to the token's length |
| DateTimes.YearFormat | utils_test.go:273-283 | "YYYY" gives the year |
| DateTimes.ShortYearMonthFormat | utils_test.go:273-283 | "YY/MM" gives the year mod 100 and the padded month |
| DateTimes.TimeFormatAsWritten | datetime.go:61 | As written, "HH:mm:ss.ms" shows the minute and the second again after the dot, never the milliseconds |
| DateTimes.TimeFormatIgnoresMilliseconds | datetime.go:61 | As written, two moments that differ only in their nanoseconds format the same |
| DateTimes.MillisecondsExampleAsWritten | datetime.go:61 | 13:07:05 with 123 ms formats as "13:07:05.75" |
| DateTimes.DateTimeFormatLongestFirst | datetime.go:61 | The same substitution, with each longer token before the tokens that occur inside it |
| DateTimes.TimeFormatLongestFirst | datetime.go:61 | Longest first, "HH:mm:ss.ms" is hour, minute, second and milliseconds |
| DateTimes.TimeFormatShowsMilliseconds | datetime.go:61 | Longest first, moments whose milliseconds differ format differently |
| DateTimes.MillisecondsExampleLongestFirst | datetime.go:61 | The same moment formats as "13:07:05.123" |
| DateTimes.NewDateTime | datetime.go:100-115 | The fields come from the given moment, Week and Milliseconds stay 0, and the default formats are set |
| DateTimes.Format | datetime.go:163-165 | The record's moment in the given format |
| DateTimes.String | datetime.go:167-169 | The format "YYYY-MM-DDTHH:mm:ss.msZ" |
| DateTimes.TimeToString | datetime.go:193-195 | The record's own time format |
| DateTimes.Today | datetime.go:197-199 | The record's own date format |
| DateTimes.NewTimeIgnoresMilliseconds | datetime.go:100-115 | A new record's TimeToString never shows its milliseconds |
| DateTimes.TodayText | datetime.go:197-199 | In the default date format, Today is the padded year, month and day joined by "-" |
| DateTimes.IsTodayMatchesToday | datetime.go:331-333 | For records in the default date format whose fields fit it, IsToday holds exactly when the two Today texts are equal |
| DateTimes.IsLeapYearGregorian | datetime.go:247-249 | IsLeapYear is the Gregorian rule, negative years included |
| DateTimes.GregorianPeriod | datetime.go:247-249 | The rule repeats every 400 years |
| DateTimes.LeapYearExamples | datetime.go:247-249 | 2024 and 2000 are leap years; 1900 and 2023 are not |
| DateTimes.CurrentYearDays | datetime.go:259-265 | 366 in a leap year, 365 otherwise |
| DateTimes.CurrentYearDays2024 | utils_test.go:326-328 | 2024 has 366 days |
| DateTimes.FourCenturies | datetime.go:247-249 | 400 successive years hold 97 leap years |
| DateTimes.GregorianCycle | datetime.go:259-265 | Any 400 successive years add up to 146097 days |
| DateTimes.MinuteOfDayRoundTrip | datetime.go:255-257 | For a time of day in range, MinuteOfDay is Hour·60 + Minute, falls within the day, and gives the hour and minute back |
| Funcs.PipeFirst | func.go:10-18 | The first function runs first: piping f and then the rest is piping the rest on f's result |
| Funcs.PipeEmpty | func.go:10-18 | With no functions the pipe is the identity |
| Funcs.PipeExample | func_test.go:10-30 | Add one, double and square from 55 give 12544 |
| Funcs.Compose | func.go:42-53 | An empty list panics at funcs[0]; otherwise the composition |
| Funcs.ComposeNests | func.go:42-53 | Compose(f1..fn)(args) = f1(f2(…fn(args))) |
| Funcs.TimesClosure.Times | func.go:20-24 | Nothing is stored and no call is counted |
| Funcs.TimesClosure.Call | func.go:25-38 | While fewer than x calls have returned, cb runs and its value is stored and counted; a panic is recovered, nothing is counted and the zero value is returned; once x calls have returned, the stored value is returned without running cb |
| Funcs.TimesTwice | func.go:20-40 | With a limit of two, a third call returns the second call's value without running the callback |
| Results.Result.Value | result.go:24-26 | The stored value |
| Results.Result.Err | result.go:28-30 | The stored error |
| Results.Result.Unwrap | result.go:36-41 | Panics exactly on an error result, with its message, and gives the value otherwise |
| Results.Result.UnwrapOr | result.go:43-48 | The default exactly when IsErr, the value otherwise |
| Results.Ok | result.go:13-15 | IsOk holds, IsErr does not, and Value is v |
| Results.Err | result.go:17-19 | Err() gives e and IsErr holds exactly for a non-nil e |
| Results.NewResult | result.go:82-84 | Equal to Ok(v) |
| Results.OkIsNotErr | result.go:20-34 | IsOk is the negation of IsErr on every result |
| Results.TryCatch | result.go:50-80 | An error result is returned unchanged; on Ok the callback's nil gives Ok(value), its error gives Err(err), and its panic gives Err of the recovered message |
| Results.TryCatchExamples | utils_test.go:528-548 | A failing callback and a panicking one turn 12 into error results, and a succeeding one keeps it |
| Options.Options.Unwrap | options.go:36-41 | Panics on None and gives the value otherwise |
| Options.Options.Expect | options.go:43-48 | Panics with the message on None and gives the value otherwise |
| Options.Options.UnwrapOr | options.go:50-55 | The default on None, the value otherwise |
| Options.Options.IsSomeAnd | options.go:57-62 | False on None, the predicate of the value otherwise |
| Options.Options.Inspect | options.go:64-66 | The receiver unchanged |
| Options.Some | options.go:20-22 | None exactly when the value is its type's zero value |
| Options.None | options.go:24-26 | IsNone holds |
| Options.SomeIsNotNone | options.go:28-34 | IsSome is the negation of IsNone |
| Options.Option | options.go:68-74 | Always Some, since the address of a parameter is never nil |
| Options.OptionExamples | utils_test.go:172-185 | A zero value makes None, so UnwrapOr(12) gives 12; Some(5) unwraps to 5; Expect on None panics with its message |
| Validators.NormarNumberRange | utils/validator.go:3-17 | IsNormarNumber holds exactly for 0 < val < MaxInt64, IsNonNegative for val >= 0 and IsNotZero for val != 0 |
| Validators.StrictComparisons | utils/validator.go:19-24 | LessThan and MoreThan are strict and mirror each other |
| Validators.Enum | utils/validator.go:26-33 | True exactly when some element equals val; the loop stops at the first match |
| Validators.ComposeValidators | utils/validator.go:35-42 | True exactly when every validator accepts the target; true for an empty list; stops at the first failure |
| Validators.TwelveValid | validator_test.go:9-13 | 12 passes IsNotZero and IsNonNegative |

## Left out

- Go strings are byte sequences but are modelled as `seq<char>`, one character per symbol. The Chinese numerals are therefore single characters, not three-byte UTF-8 sequences.
- The decimal separator is a `string` in Go and a single `char` here.
- `BigNumberConfig.groupSeparator` is carried but never read, as in the source.
- BigNumbers.SetConfig: Go stores a `*BigNumberConfig`, so two numbers can share one configuration and see each other's `SetBase`. Here a configuration is an immutable value.
- BigDigits.ToNumber: its requires `0 <= index < |alphabet|` excludes the out-of-range panic. The callers are proved to stay in range.
- BigAddSub.Add, BigAddSub.Sub and BigMultiply.Multiply require well-formed digit texts in one configuration (`LoopConfig`, `SubOperands`, `MultiplyOperands`). The source accepts any text. There, `toInteger` reads an unknown symbol such as "," as 0, and a symbol at or above the base can drive the borrow loop into `toNumber(-1)`.
- BigSigned.Plus and BigSigned.Minus have the same well-formedness requires.
- BigDivide.Divide requires `MultiplyOperands`: both texts well formed in the first operand's configuration. In the source an empty divisor text makes `num2[0]` panic, a text with two separators is split by `splitDecimal` at the first one, and an unknown symbol is read as 0.
- BigDivide.DivideOperandTexts has the same `MultiplyOperands` requires; it states only the padded digits of well-formed texts.
- BigModulo.DivideStrings requires `MultiplyOperands`, for the reasons given for BigDivide.Divide.
- BigModulo.StringsOperandTexts has the same `MultiplyOperands` requires; `normalizeDecimal` on malformed texts is not modelled.
- BigModulo.Mod requires `MultiplyOperands`, as it calls DivideStrings.
- BigPower.ExponentiatedBy requires, for a positive exponent, that the base's text is well formed in the default configuration, because every step is a Multiply with the product started from NewBigNumber("1").
- The value theorems (AddValueIn, SubValueIn, MultiplyValueIn, DivideValueIn, ModValueIn, ShiftValue and the Fixed versions) hold only for a `DotConfig`: a valid configuration with separator "." and no "-" among its digits. This is because NewBigNumber's "-", "0" and "." handling is literal. Binary operations also require both operands to share one configuration.
- BigMultiply.PadEndString is defined outside bigNumber.go. It is taken to pad on the right to n symbols and to leave a longer text alone, as slice.go's PadEnd does.
- ExponentiatedBy: the exact value is stated only for bases without a fraction (BigPower.Power). For a base with a fraction, only the sign and the loop's equality with repeated Multiply are proved.
- BigDivide.DivideValueIn and BigModulo.ModValueIn require maxDecimal >= 0. A negative maxDecimal makes `insertDecimalPoint` and `PadEndString` do nothing.
- subtractStrings, multiplyStrings and compareIntegerParts are not modelled, because nothing calls them. Only divideStrings is reachable, through Mod.
- BigExamples does not restate the test's 89.0000001 + 0.001 and 8 - 9, whose symbols lie beyond "0", "1" and "2"; the general value theorems cover them.
- Sum is not modelled: its `any` type switch asserts `*BigNumber` on a `BigNumber` case.
- IsFinite is a constant.
- DividedBy, DividedToIntegerBy, MultipliedBy and From are one-line aliases of Divide, Divide + IntegerValue, Multiply and NewBigNumber. They are not repeated.
- `ComparedTo` returns a length difference rather than ±1 when the integer parts differ in length. The `Is*` helpers use only its sign, which is proved right in that case (BigCompare.LongerIntPart). The `Is*` predicates themselves are one-line comparisons of ComparedTo with 0.
- Convert.StringToNumber and NumberSystem.ToChineseNumber compute on unbounded integers. Go's 64-bit wrap-around of `result`, `power` and `int64(math.Abs(...))` for the most negative int64 is not modelled.
- NumberSystem.ToChineseNumber: `int64(math.Abs(float64(number)))` is modelled as the integer absolute value. Its requires excludes base 1 for non-zero numbers, where the Go loop never ends.
- convert.go: the floating-point unit converters (Length, Weight, Size, Volume, Storage, NetSpeed, WeightEN) and NumberToString, whose loop runs on float64 with `math.Floor`, are not modelled.
- datetime.go: `time.Now` becomes a moment passed in (DateTimes.NewDateTime). These are not modelled because they depend on Go's calendar normalisation or time zones: the Set* methods, the Add* methods, SetTime, DayOfYear, WeekOfYear, WeekDay, UTCOffset, Max/Min, IsBefore/IsAfter, MonthToString, WeekToString and LocaleCallBack.
- datetime.go's Parse is not modelled: it assigns the undeclared `timeParse`, so the file does not build as written.
- DateTimes: IsLeapYear, MinuteOfDay and IsToday are single expressions over the integer fields, stated through their lemmas.
- utils.go: these are not modelled because they are runtime reflection over arbitrary Go values: ToString (fmt formatting, with Template's values taken as already-rendered text), AccessNested, NestedObject, CreateNestedObject and Map2Struct.
- utils.go: LoadConfig (file I/O and `log.Fatal`) and TimeDuration (`time.Now`) are not modelled, nor are their copies in utils/utils.go.
- deepReplace and ReferenceString are not modelled: their recursion has no termination guarantee for cyclic reference maps.
- TextUtils.Template: the order in which Go visits a map is unspecified, so the model takes that order as the sequence of entries it is given. TemplateQuestionMarks shows that the "?" result depends on it.
- Sets.Set.Values lists members in an order the model does not fix, as Go's map iteration does not.
- Slices.Chunk and UtilsPackage.Chunk require a non-zero size for a non-empty slice: with size 0 the Go loop appends empty chunks forever and never returns.
- slice.go's ForEach only calls its callback for effects and is not modelled.
- mapping.go, emit.go, utils/options.go and validatetor_64.go are not part of this model.
- TextUtils.ToLowerCamelCase lowers only ASCII A–Z and keeps any other first character. Go's `strings.ToLower(s[:1])` works on the first byte alone, so a non-ASCII first character is cut into an invalid byte that comes back as U+FFFD; the model's strings are characters, not bytes.
- UtilsPackage.ToLowerCamelCase has the same ASCII-only lowering as the root copy.
- BigNumbers.StringRoundTrip excludes "0.", which is a canonical text that NewBigNumber reads as "0", and texts starting with "-", whose sign NewBigNumber strips.
- Funcs: the callbacks of PipeCallback and Compose are total Dafny functions. TimesClosure's callback is a total Dafny function returning an Outcome (a value or a panic), fixed by the constructor; a Go callback's own state and side effects are not modelled.
- Funcs.TimesClosure.Call: the deferred `recover` in the source also prints "Error occurred:" and the panic value to standard output; that output is not modelled, only that the panic is swallowed.
- Options.Some: Go asks reflection whether the value is its type's zero value. The model takes that zero value as a parameter.

## Findings

| source | as written | input that shows it | evidently intended | confidence | as-written member | corrected member |
|---|---|---|---|---|---|---|
| bigNumber.go:220-225 | differing signs return the larger sign, which is always 1 | NewBigNumber("-1").ComparedTo(NewBigNumber("1")) is 1 | -1 when the receiver is negative | not executed | BigCompare.ComparedToSigns | BigCompare.ComparedToFixedOrder |
| bigNumber.go:235 | `toInteger(string(intPart1))` looks up the whole integer part | "12" compared with "11" gives 0 | the i-th digit `intPart1[i]` | not executed | BigCompare.ComparedToWholeIntPart | BigCompare.ComparedToFixedOrder |
| bigNumber.go:226-253 | two negatives are compared by magnitude | "-2" compared with "-1" gives a positive result | the order reversed for negatives | not executed | BigCompare.ComparedToNegatives | BigCompare.ComparedToFixedOrder |
| bigNumber.go:615-618 | mixed signs always take a.Sub(b) under a's sign | 1 plus -5 gives a positive number | the larger magnitude decides the branch and the sign | not executed | BigSigned.PlusWrongSign | BigSigned.PlusFixedValue |
| bigNumber.go:369-376 | trailing "0"s are trimmed whenever either text has a separator, even with no fraction places | "10." minus "0" gives 1 | trim only when there are fraction places | not executed | BigSigned.SubBareSeparator | BigSigned.SubFixedValue |
| bigNumber.go:436-438 | with maxDecimal <= 0, trailing "0"s are trimmed from integer products | "10" times "10" with maxDecimal 0 gives 1 | trim only in a fraction | not executed | BigProduct.MultiplyDropsIntegerZeros | BigProduct.MultiplyFixedValue |
| bigNumber.go:482-483 | the divisor is its first digit | "1" divided by "10" gives 1.000000 | divide by the whole divisor | not executed | BigDivide.DivideOneByTen | BigDivide.DivideFixedValue |
| bigNumber.go:476-485 | the zero check compares the text with "0", and the first digit of "0.1" is 0 | "1" divided by "0.1" panics with an integer divide-by-zero | 10 | not executed | BigDivide.DivideByPointOne | BigDivide.DivideFixedValue |
| bigNumber.go:594-601 | Mod divides by the divisor's first digit | "1" mod "10" gives "0" | 1 | not executed | BigModulo.ModOneByTen | BigModulo.ModFixedValue |
| bigNumber.go:646-653 | the shifted text goes through NewBigNumber and loses the sign | "-1.5" shifted by 1 gives 15 | -15 | not executed | BigShift.ShiftDropsSign | BigShift.ShiftFixedValue |
| utils.go:161-167 | `maxLength&0 == 0` always holds, so a one-character delimiter is cut into "" and itself | FindVariableNames("hi @name", "@") gives [] | an odd-length delimiter is the opening symbol: ["name"] | not executed | TextUtils.AtDelimiterFindsNothing | TextUtils.AtDelimiterIntended |
| convert.go:164-166 | the checks are `index > base` and `val > base`, so a digit equal to the base passes | "1A" in base 10 gives 20, the same as "20" | digits in [0, base) only | not executed | Convert.DigitEqualToBase | Convert.CheckedRejectsDigitEqualToBase |
| convert.go:161-168 | an unknown symbol's -1 passes the check and is added | "1?" in base 10 gives 9 | the text rejected | not executed | Convert.UnknownSymbolIsMinusOne | Convert.CheckedValue |
| datetime.go:61 | "s" and "m" are replaced before "ms" and take its letters | "HH:mm:ss.ms" at 13:07:05.123 gives "13:07:05.75" | "13:07:05.123" | not executed | DateTimes.MillisecondsExampleAsWritten | DateTimes.MillisecondsExampleLongestFirst |
