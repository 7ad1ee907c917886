# Receipt processor: a Dafny model of the scoring engine and the receipt store

The receipt processor is a small web service. It accepts shopping receipts,
stores each one under a fresh id, and on request awards it points by seven
rules:

1. One point per ASCII letter or digit in the retailer name.
2. 50 points for a round-dollar total.
3. 25 points for a total that is a multiple of 0.25.
4. 5 points for every two items.
5. For every item whose trimmed description is a multiple of three bytes long, the price times 0.2, rounded up.
6. 6 points for an odd purchase day.
7. 10 points for a purchase hour from 14 up to but excluding 16.

This project models that service in Dafny:

- **`Scoring`** (`scoring.dfy`):
  - the `item` and `receipt` records and `removeNonAlphaNum`;
  - the rules as functions, with their sum as `Score`;
  - `calculatePoints` as the imperative method `CalculatePoints`. It keeps the source's accumulator and its two loops over the items, and it is proved to return `Score`;
  - the built-in example receipt, proved to score 109.
- **`Store`** (`store.dfy`):
  - the global `receipts` map, as a class with one `map` field;
  - `putReceipt` (`Put`) and `getReceipt` (`PointsFor`);
  - the example the service starts with.
- **`GoStrings`** and **`StrConv`** (`gostrings.dfy`, `strconv.dfy`): the parts of Go's standard library the rules call.
  - `strings.TrimSpace`, with the full Unicode white-space set.
  - `strings.Split` on one character.
  - `len` of a string, which counts UTF-8 bytes.
  - `strconv.ParseInt`, with its syntax and range errors.
  - `strconv.ParseFloat`, read as an exact decimal.
  - Go's truncating `%`.
- **`Results`** (`results.dfy`): `Option` and `Result`.

Several behaviours follow from the code and go beyond the seven rules as
stated above:

- An amount that does not parse counts as 0. So a malformed total earns 75 points, and a malformed price earns nothing.
- A day that is a syntax error reads as 0 and gives no bonus. A day too large for 64 bits, such as "99999999999999999999", reads as the largest `int64`, which is odd, so it gets the bonus.
- A negative odd day gives no bonus either, because Go's `%` truncates toward zero.
- A purchase date with fewer than three `-`-separated fields makes `calculatePoints` index past the end of a slice. That is a panic, modelled as the error `IndexOutOfRange`.
- `putReceipt` has no `return` after it answers 400 to a body that does not bind. The handler therefore still stores what binding left in the receipt and then writes a 200 with the new id. The model records this as written.

## Model

| member | source | states |
|---|---|---|
| Scoring.IsAsciiAlnum | main.go:39 | the character class `[a-zA-Z0-9]`: an ASCII lower-case letter, upper-case letter or digit |
| Scoring.RemoveNonAlphaNum | main.go:39-43 | the result is never longer than the input |
| Scoring.RemoveNonAlphaNumLeavesAlnum | main.go:39-43 | every character left is in `[a-zA-Z0-9]` |
| Scoring.RemoveNonAlphaNumConcat | main.go:39-43 | removal works character by character: removing from `a + b` is removing from `a` then from `b` |
| Scoring.RemoveNonAlphaNumKeepsAlnum | main.go:39-43 | text made only of `[a-zA-Z0-9]` is returned unchanged |
| Scoring.RemoveNonAlphaNumIdempotent | main.go:39-43 | removing a second time removes nothing more |
| Scoring.RetailerPointsCount | main.go:39-43 | each `[a-zA-Z0-9]` character is kept exactly as often as it occurs, every other character never |
| Scoring.RetailerPoints | main.go:64 | rule 1 is the number of characters kept, never more than the name's length |
| Scoring.RetailerPointsConcat | main.go:64 | rule 1 adds up over the parts of a name |
| Scoring.RetailerPointsPerCharacter | main.go:64 | a character adds one point if it is alphanumeric, none otherwise |
| Scoring.TotalAmount | main.go:60 | a total that does not parse (its error is discarded) counts as 0 |
| Scoring.RoundDollarPoints | main.go:67-69 | 50 points or nothing, 50 exactly when `10^scale` divides the total's mantissa (no non-zero digit after the point) |
| Scoring.QuarterPoints | main.go:72-74 | 25 points or nothing, 25 exactly when `10^scale` divides four times the total's mantissa |
| Scoring.RoundDollarEarns75 | main.go:67-74 | a round-dollar total also passes the 0.25 test, so it earns 75 |
| Scoring.MalformedTotalEarns75 | main.go:60-74 | a total that does not parse counts as 0 and earns 75 |
| Scoring.CommaTotalEarns75 | main.go:60-74 | a total written with a decimal comma, such as "9,25", is a syntax error, reads as 0 and earns 75 |
| Scoring.TotalInCents | main.go:60 | a total written `D.CC` stands for `100*D + CC` cents |
| Scoring.CentsTotalPoints | main.go:67-74 | for a total `D.CC`, 50 points iff `CC` is 00 and 25 points iff `CC` is a multiple of 25 |
| Scoring.AmountInCentsPoints | main.go:67-74 | both total rules, for an amount in cents, as tests on the cents |
| Scoring.QuarterTotalEarns25 | main.go:67-74 | "9.25" earns the 25 points and not the 50 |
| Scoring.PairPoints | main.go:77-81 | a multiple of 5, at most `5 * count / 2` and more than that less 5: five points per complete pair |
| Scoring.PairPointsStep | main.go:77-81 | adding 5 at each even 1-based position totals `5 * (n / 2)` |
| Scoring.PriceOf | main.go:91 | a price that does not parse (its error is discarded) counts as 0 |
| Scoring.ItemPoints | main.go:89-94 | an item earns points only if its trimmed description's byte length is a multiple of 3; a non-negative price never earns a negative amount |
| Scoring.ItemPointsCeil | main.go:89-94 | a qualifying item earns the least whole number at least a fifth of its price; any other item earns 0 |
| Scoring.MalformedPriceEarnsNothing | main.go:91-92 | an item whose price does not parse earns nothing |
| Scoring.DescriptionPoints | main.go:89-94 | rule 5 is the sum of the item points over the items, in order |
| Scoring.DescriptionPointsNonNegative | main.go:89-94 | with no negative price, rule 5 is never negative |
| Scoring.BlankDescriptionQualifies | main.go:90 | an all-blank description has length 0, a multiple of 3, so the item earns its price rule |
| Scoring.UnqualifiedItemEarnsNothing | main.go:90 | an item whose trimmed description length is not a multiple of 3 earns nothing |
| Scoring.CopiesEarnNothing | main.go:89-94 | copies of one item that earns nothing earn nothing together |
| Scoring.FourCopiesEarnNothing | main.go:89-94 | four copies of an item that earns nothing earn nothing |
| Scoring.DayOf | main.go:98 | the day is within `int64`, and 0 when the third field is a syntax error |
| Scoring.OddDayPoints | main.go:99-101 | 6 points exactly when the day is positive and odd, else nothing: Go's `%` gives 1 for no negative day |
| Scoring.OddDayPointsOnError | main.go:98-101 | a day that is a syntax error earns nothing; a day out of the 64-bit range earns 6 exactly when it is clamped to the upper bound |
| Scoring.OverlargeDayEarns6 | main.go:98-101 | a day written with digits worth more than the largest `int64` earns 6 points |
| Scoring.AfternoonPointsIff | main.go:104-107 | 10 points iff the text before the first `:` parses to 14 or 15; text that fails to parse earns nothing |
| Scoring.HourOf | main.go:104 | the hour is within `int64`, and 0 when the text before the first `:` is a syntax error |
| Scoring.AfternoonPoints | main.go:105-107 | the hour bonus is 10 points or nothing |
| Scoring.Score | main.go:58-110 | the score is the sum of the seven rules, or the index error when the date has fewer than three fields |
| Scoring.ScoreFailsIff | main.go:98 | scoring fails exactly when the purchase date holds fewer than two `-` |
| Scoring.ScoreNonNegative | main.go:58-110 | with no negative price, a score is never negative |
| Scoring.ItemRuleLoop | main.go:89-94 | the loop over the items adds up rule 5 for all of them |
| Scoring.CalculatePoints | main.go:58-110 | the step-by-step accumulation returns exactly `Score(r)`: the seven rules' sum, or the out-of-range error |
| Scoring.ExampleReceipt | main.go:125-145 | the receipt the example JSON decodes to: "M&M Corner Market", "2022-03-20", "14:33", four "Gatorade" items at "2.25", total "9.00" |
| Scoring.ExampleScore | main.go:125-145 | the example receipt scores 109 |
| Scoring.ExampleRetailer | main.go:126 | "M&M Corner Market" earns 14 |
| Scoring.ExampleRetailerHead | main.go:126 | "M&M" earns 2 |
| Scoring.ExampleRetailerTail | main.go:126 | " Corner Market" earns 12 |
| Scoring.ExampleRetailerCorner | main.go:126 | " Corner" earns 6 |
| Scoring.ExampleRetailerMarket | main.go:126 | " Market" earns 6 |
| Scoring.ExampleTotal | main.go:144 | "9.00" earns 75 |
| Scoring.ExamplePairs | main.go:129-143 | four items earn 10 |
| Scoring.GatoradeUnqualified | main.go:131 | "Gatorade" is 8 bytes long, not a multiple of 3 |
| Scoring.GatoradeEarnsNothing | main.go:131-132 | the example's item earns no rule-5 points |
| Scoring.ExampleItems | main.go:129-143 | the example's items earn no rule-5 points |
| Scoring.ExampleDateFields | main.go:127 | "2022-03-20" splits into "2022", "03", "20" |
| Scoring.ExampleTimeFields | main.go:128 | "14:33" splits into "14", "33" |
| Scoring.ExampleNumbers | main.go:127-128 | "20" parses to 20 and "14" to 14 |
| Scoring.ExampleDateAndTime | main.go:127-128 | the example's date has three fields, the 20th earns no day bonus, 14:33 earns the hour bonus |
| GoStrings.IsSpace | main.go:90 | the white space of `unicode.IsSpace`: tab, line feed, vertical tab, form feed, carriage return, space, U+0085, U+00A0, U+1680, U+2000 to U+200A, U+2028, U+2029, U+202F, U+205F and U+3000 |
| GoStrings.TrimLeft | main.go:90 | what is left starts with no white space and is no longer than the input |
| GoStrings.TrimLeftSuffix | main.go:90 | what TrimLeft keeps is a suffix of the input |
| GoStrings.TrimLeftDropsSpace | main.go:90 | what TrimLeft drops is white space |
| GoStrings.TrimRight | main.go:90 | what is left ends with no white space and is no longer than the input |
| GoStrings.TrimRightPrefix | main.go:90 | what TrimRight keeps is a prefix of the input |
| GoStrings.TrimRightDropsSpace | main.go:90 | what TrimRight drops is white space |
| GoStrings.TrimSpace | main.go:90 | the result has no white space at either end |
| GoStrings.TrimSpaceSlice | main.go:90 | the result is one slice of the input with only white space around it |
| GoStrings.TrimSpaceIdempotent | main.go:90 | trimming twice is trimming once |
| GoStrings.TrimSpaceOfPadded | main.go:90 | white space around a text with no space at its ends is exactly what is cut |
| GoStrings.TrimLeftOfPadded | main.go:90 | leading white space before a non-space is exactly what TrimLeft cuts |
| GoStrings.TrimRightOfPadded | main.go:90 | trailing white space after a non-space is exactly what TrimRight cuts |
| GoStrings.Utf8Len | main.go:90 | a character takes 1 to 4 bytes, 1 exactly when it is ASCII |
| GoStrings.ByteLen | main.go:90 | a string takes between its length and four times its length in bytes |
| GoStrings.AsciiByteLen | main.go:64 | ASCII text takes one byte per character |
| GoStrings.NonAsciiByteLen | main.go:90 | text with a non-ASCII character takes more bytes than characters |
| GoStrings.IndexOf | main.go:104 | the index is within the text and, when inside it, points at the character sought |
| GoStrings.IndexOfFirst | main.go:104 | no earlier character is the one sought |
| GoStrings.IndexOfAfter | main.go:98 | searching past a prefix without the character shifts the index by the prefix's length |
| GoStrings.Split | main.go:98 | splitting always gives at least one field |
| GoStrings.SplitPiecesHaveNoSeparator | main.go:98 | no field holds the separator |
| GoStrings.JoinSplit | main.go:98 | joining the fields with the separator gives the text back |
| GoStrings.SplitJoin | main.go:98 | splitting the join of separator-free fields gives the fields back |
| GoStrings.SplitCount | main.go:98 | there is one field more than separators |
| GoStrings.SplitFirst | main.go:104 | the first field is the text before the first separator |
| GoStrings.SplitWhole | main.go:98 | a text without the separator is one field |
| GoStrings.SplitAtFirst | main.go:98 | a separator after a separator-free prefix ends the first field |
| StrConv.FormatNat | main.go:98 | formatting gives digits whose value is the number |
| StrConv.DigitsValueCons | main.go:98 | a leading digit adds its value times the power of ten of the remaining length |
| StrConv.ParseUintFrom | main.go:98 | the digit loop's value is within `uint64`, 0 on a syntax error, the maximum on a range error |
| StrConv.ParseUint | main.go:98 | the value is within `uint64` and 0 on a syntax error |
| StrConv.ParseInt | main.go:98 | the value is within `int64`, 0 on a syntax error, clamped to a bound on a range error |
| StrConv.ParseUintDigits | main.go:98 | digits parse to their value when it fits in `uint64`, and to a range error otherwise |
| StrConv.ParseIntDigits | main.go:98 | a sign and digits parse to the signed value when it fits in `int64`, and to the bound with a range error otherwise |
| StrConv.ParseFormatInt | main.go:98 | every `int64` formatted and parsed back is itself |
| StrConv.ParseIntRejects | main.go:98 | text that is empty after the optional sign, or whose first character after the sign is not a digit, is a syntax error with value 0 |
| StrConv.ParseUintFromPrefix | main.go:98 | a run of digits is read whole while its value fits in `uint64`; once it no longer fits the parse stops with a range error, whatever follows |
| StrConv.ParseIntStopsAt | main.go:98 | after digits that fit in `uint64`, a non-digit makes the text a syntax error with value 0; after digits that do not, the result is the clamped bound with a range error |
| StrConv.ScanDecimal | main.go:60 | the mantissa and the number of decimals only grow while scanning; `ParseFloatPointed` and `ParseFloatWhole` give the value scanned |
| StrConv.ScanDigits | main.go:60 | scanning a run of digits adds their value to the mantissa |
| StrConv.ParseFloat | main.go:60 | never a range error; value 0 on a syntax error; negative only after a leading `-`; `ParseFloatAccepts` says which texts parse |
| StrConv.ParseFloatDollarsCents | main.go:60 | "D.CC" parses to `100*D + CC` hundredths |
| StrConv.DigitsValueAppend | main.go:60 | digits written after other digits shift those left by their own length |
| StrConv.ParseFloatPointed | main.go:60 | a sign, digits, a point and digits (at least one digit in all) parse to all the digits read as one number, negated after `-`, with as many decimals as follow the point |
| StrConv.ParseFloatWhole | main.go:60 | a sign and digits parse to their value, negated after `-`, with no decimals |
| StrConv.ScanDecimalAccepts | main.go:60 | the mantissa loop succeeds exactly on digits and points with at most one point and at least one digit in all |
| StrConv.ParseFloatAccepts | main.go:60 | no error exactly when the text after at most one leading sign is digits with at most one point and at least one digit; every other text is a syntax error |
| StrConv.CommaIsSyntaxError | main.go:60 | digits with a decimal comma, such as "9,00", are a syntax error |
| StrConv.TwoDigits | main.go:60 | two digits read back as their number |
| StrConv.IsWhole | main.go:67 | `totalAmt == float64(int64(totalAmt))` on the exact amount: every digit after the point is 0 |
| StrConv.IsQuarterMultiple | main.go:72 | `math.Mod(totalAmt, 0.25) == 0` on the exact amount: four times it is whole, i.e. `10^scale` divides four times the mantissa |
| StrConv.IsWholeMod | main.go:67 | an amount is whole iff its mantissa is a multiple of `10^scale` |
| StrConv.WholeIsQuarterMultiple | main.go:67-74 | every whole amount is a multiple of 0.25 |
| StrConv.CeilFifth | main.go:92 | a non-negative price gives a non-negative amount |
| StrConv.CeilFifthBounds | main.go:92 | the result `q` is the least integer with `price * 0.2 <= q` |
| StrConv.CeilDivBounds | main.go:92 | integer division rounding up gives the least `q` with `a <= b*q` |
| StrConv.CentsView | main.go:67-92 | for an amount in cents, the whole, quarter and ceiling tests are tests on the cent count |
| StrConv.GoRem | main.go:99 | Go's remainder takes the dividend's sign, is smaller than the divisor in magnitude, and differs from the dividend by a multiple of it |
| StrConv.GoRemOdd | main.go:99 | `day % 2 == 1` in Go iff the day is positive and odd |
| Store.PutReplies | main.go:115-119 | the last reply is always 200 with the id, preceded by a 400 exactly when binding failed |
| Store.ReceiptStore.constructor | main.go:122 | the store starts empty |
| Store.ReceiptStore.WithExample | main.go:149 | the service starts with the example receipt under "example" |
| Store.ReceiptStore.Put | main.go:112-120 | the bound receipt is stored under the id even when binding failed, every other id is left alone, and the replies are `PutReplies` |
| Store.ReceiptStore.PointsFor | main.go:45-53 | a 404 with "No receipt found for that ID." for an unknown id; otherwise 200 with the stored receipt's score, or the scoring panic |
| Store.ExamplePoints | main.go:149 | asking the freshly started service for "example" gives 200 with 109 points |
| Store.PutThenPoints | main.go:112-120 | after a put, asking for its id scores what was stored, even when binding failed |

## Left out

- HTTP routing, gin and JSON. `c.Param`, `c.BindJSON` and the JSON replies are not modelled: the outcome of binding is the `Bind` parameter, and each reply is a status with a body value. Two replies written one after the other (the 400, then the 200) are listed in order. What the client then receives depends on gin, which is not part of this model.
- `uuid.NewString` (main.go:113): the id is a parameter of `Put`. Two puts with the same id overwrite, as the map assignment does.
- `showReceipts` (main.go:54-56) only serialises the whole map, so there is no logic to model.
- `main` (main.go:124-157):
  - the example is the receipt value that its JSON text decodes to; the decoding and its `panic` on error are not modelled;
  - the router setup and `router.Run` are not modelled.
- Unsynchronised access to the global map from concurrent requests.
- The debug `fmt.Printf` calls in `calculatePoints`.
- Store.ReceiptStore.PointsFor: a panic while scoring ends as `Panicked`. The answer gin's recovery middleware then gives is not modelled.
- StrConv.ParseFloat: the value is an exact decimal, not a `float64`. Go also accepts exponents, hexadecimal mantissas, underscores, "inf" and "nan"; the model treats all of them as syntax errors with value 0, as `StrConv.ParseFloatAccepts` states.
- Scoring.RoundDollarPoints / Scoring.QuarterPoints: the round-dollar and 0.25 tests are exact on the decimal. With `float64`, a total with more digits than a double holds can round onto a whole or quarter value. A total beyond the `int64` range makes `int64(totalAmt)` undefined. Neither case is modelled.
- Scoring.ItemPoints: rule 5 is the exact `ceil(price / 5)`. Go computes `math.Ceil(price * 0.2)` on `float64`, so the two can differ only where the rounded price or product falls on the other side of a whole number (prices with more digits than a double holds, or very large ones). That is not modelled.
- Scoring.CalculatePoints: the `int64` accumulator and the `int64(...)` conversions are unbounded integers here, so overflow on enormous receipts is not modelled. The second loop over the items is written as its own method, `ItemRuleLoop`, and called at the same point; it performs the same steps.
