# Quantities and the policies that rely on them

A Dafny model of the Kubernetes quantity arithmetic that the Kubewarden policies vendor
(`policies/container-resources-policy/resource`), and of three admission policies: container
resources and project quotas, which are built on it, and host paths, which is not.

A quantity is a number in one of two representations, an int64 with a decimal scale or an
arbitrary-precision decimal, together with a print format and a cached string. The model keeps
that object as it is (classes with the same fields, updated in place, decimals that copies can share)
and gives it a meaning: `Value()` is a real number, `Denote` is what a string stands for,
`IsCanonical` is what a value should print as. All three are defined without the algorithms, and the
methods are proved against them.

## What is proved

- **Int64 arithmetic.** The overflow checks work on wrapped results, and report exactly the
  overflows. Digit-by-digit division rounds away from zero (`Int64Math`).
- **Two representations, one number.** Addition, subtraction, comparison, rounding and printing
  give the same results in every mix of representations. `Runs.Run` lifts this to every sequence of
  operations on any number of variables: values, comparisons and printed texts are those of exact
  arithmetic over the reals, except at the steps where an int64 amount of -2^63 is negated, and every cached
  string stays right. No step does that unless a number equal to -2^63 at some scale is subtracted or negated.
- **Parsing.** `ParseQuantity` returns the meaning of every string or its error, on the int64 path and
  on the exact path. Of the documented grammar, exactly the exponents that have a point or do not fit an
  int64 are refused.
  `Documented` says the same in elementary terms: which number the digits, the point and each unit make,
  how it is rounded and limited, and which strings are kept; `Examples` has the documented examples.
- **Round trip.** Printing and parsing again keeps the value if and only if a condition on the exponent
  holds, which is stated for canonical texts, for parsed quantities, for cached strings and for JSON.
- **Project quotas.** The check is `request <= limit - used` in exact arithmetic.
- **Container resources.** The pod-level method is proved to accept, complete and report exactly as
  specified. Running it on its own result accepts and changes nothing if and only if every default that
  was filled in keeps to its bounds as printed; valid settings with a default of `1000E` do not meet that.
- **Host paths.** The stateful loop computes the flag of the last of the longest matching entries, and
  its verdict is independent of the order of the entries if and only if the longest ones agree.

## Where the code differs from its documentation

The model follows the code.

- The documentation (`quantity.go:59-63`) limits all quantities to 2^63 - 1 and to three decimal
  places. The code limits binary suffixes only, and rounds to nine places.
- The grammar's `decimalExponent` allows a fraction in the exponent. The code takes an int64, and cuts
  it to its low 32 bits, so `1e4294967296` means 1. It also accepts the suffixes `n` and `u`. The scale is
  an int32 as well, so `1.5e-2147483648` means 15e2147483647.
- Canonical form promises that no precision is lost, but the result of looking up the suffix is ignored:
  `1000E` is accepted and printed as `1` (`ParsedText.ThousandExaPrintsAsOne`).
- `Sub` and `Neg` negate an int64 without a check. Subtracting -2^63 within int64 adds it,
  negating it keeps it. Parsing never yields that representation, so the quota check is not affected.
- `scaledValue` is documented to round up. Its fast path takes a negative int64 that does not divide
  to one above the ceiling, because the quotient is truncated towards zero already and one is added.
  Unscaled numbers below int64 take that path with their low 64 bits: -(2^64 + 5) with one place gives 1.
- The comment on `CanonicalizeBytes` (`quantity.go:417-421`) rounds the fractional parts of binary quantities
  up. The code prints such quantities in decimal units instead, and loses nothing (`Canonical.BinaryTextIs`).
- `UnmarshalJSON` keeps the cached string of its receiver on `null`.
- Copies of a quantity share its decimal. Adding to such a copy changes the original and
  leaves its cached string behind (`Runs.AddToCopy` says exactly when that matters).
- The settings promise limits that cover requests for all combinations of valid values. That takes both a
  maximum request and a minimum limit (`Coverage.CoverageIsSeparation`).
- A limit that is filled in can be rejected the next time (`ContainerValidation.FilledInAndRejected`).
- A container without `resources` makes the container-resources policy dereference nil unless the values
  of some resource are ignored; the model reports this as `NilDereference`.

## How it is modelled

- Values are reals `unscaled * 10^scale`. Parsing cuts exponents and scales to 32 bits as the code does;
  elsewhere scales are unbounded integers. `inf.Dec` and `big.Int` are objects that hold integers and
  have their mathematical meaning.
- An `int64Amount` is embedded by value in Go and is a datatype here; a method that updates it through a pointer
  returns the new amount.
- Go passes quantities by value. A method that copies its argument says so with `Copy`, which shares the decimal.
- Errors are tags; texts of errors are not modelled. A nil map or pointer is `None`.
- Strings are sequences of characters, slices are an array with a start and a length.
- `Truthful` is the invariant of the cached string: it reads back as the value, or it is the canonical text.
  The two differ only for values that printing does not keep.
- The quantity package of the quota policy is a second copy of the same code and is modelled once.
- Some branches that differ only in a constant or in the order of their operands share one method:
  the multiplications by 10, 100 and 1000, the two orders of scales in `Add`, the scanner's loops, and the
  factors 10, 100 and 1024 in `removeInt64Factors`.

## Model

| member | source | states |
|---|---|---|
| `Int64Math.Wrap` | policies/container-resources-policy/resource/math.go:51-52 | Two's complement: identity on int64, and one lap of 2^64 below or above it. Every int64 operation of the model is written with it. |
| `Int64Math.Int64Neg` | policies/container-resources-policy/resource/math.go:264-289 | Negating an int64 is exact except for the smallest one, which stays itself. |
| `Int64Math.Int64Add` | policies/container-resources-policy/resource/math.go:54-71 | The sign comparison reports success exactly if the mathematical sum fits, and then returns that sum. |
| `Int64Math.Int64Multiply` | policies/container-resources-policy/resource/math.go:73-84 | The shortcuts and the division check report success exactly if the product fits, and then return it. |
| `Int64Math.Int64MultiplyScale` | policies/container-resources-policy/resource/math.go:86-97 | The same for a multiplier above one, without the check for the smallest int64. |
| `Int64Math.Int64MultiplyScaleConst` | policies/container-resources-policy/resource/math.go:99-136 | The copies for 10, 100 and 1000 agree with the generic one and are exact. |
| `Int64Math.DivisionDetectsOverflow` | policies/container-resources-policy/resource/math.go:54-136 | Why the check works: dividing the wrapped product by one factor gives the other factor exactly if nothing wrapped. |
| `Int64Math.Pow10Int64` | policies/container-resources-policy/resource/math.go:199-243 | A power of ten for 0 to 18, and zero for every other exponent. |
| `Int64Math.PositiveScaleInt64` | policies/container-resources-policy/resource/math.go:137-163 | Special cases and loop alike: success exactly if base times 10^scale fits, and then that number. |
| `Int64Math.NegativeScaleInt64` | policies/container-resources-policy/resource/math.go:165-198 | Dividing digit by digit with an early exit gives base / 10^scale rounded away from zero; `exact` exactly if 10^scale divides base. |
| `Int64Math.TruncateMore` | policies/container-resources-policy/resource/math.go:173-189 | One turn of the loop: the truncated quotient and the flag for lost digits move on to the next power of ten. |
| `Int64Math.NothingLeft` | policies/container-resources-policy/resource/math.go:180-188 | The early exit: once no digit is left, all larger scales give 0, 1 or -1. |
| `Int64Math.DivideByScaleInt64` | policies/container-resources-policy/resource/math.go:245-257 | Quotient and remainder recompose the base, the remainder has its sign and is smaller than the divisor; refused for scales of 18 and more. |
| `Int64Math.RemoveInt64Factors` | policies/container-resources-policy/resource/math.go:258-291 | value == result * base^times with no factor left, for both signs; the smallest int64 comes back unchanged because negating it wraps. |
| `Int64Math.RemoveBigIntFactors` | policies/container-resources-policy/resource/math.go:293-309 | The same without bounds; terminates although the loop swaps the two big integers, and returns the caller's object or a new one. |
| `Rounding.RoundsAwayUnique` | policies/container-resources-policy/resource/amount.go:263-269 | Rounding away from zero to a multiple of 10^s has one answer, whatever computes it. |
| `Rounding.RoundAwayVal` | policies/container-resources-policy/resource/amount.go:206-215 | On u * 10^e that answer is exact for e >= s and a division rounded away from zero otherwise. |
| `Rounding.RoundUpNegate` | policies/container-resources-policy/resource/quantity.go:360-387 | Rounding commutes with negation, so rounding the absolute value and restoring the sign is right. |
| `Amount.Int64Amount.AsInt64` | policies/container-resources-policy/resource/amount.go:75-88 | Succeeds exactly if the value is given at a scale of zero or more and fits, and then is the value. |
| `Amount.Int64Amount.AsScaledInt64` | policies/container-resources-policy/resource/amount.go:90-101 | The value in units of 10^s rounded away from zero, refused exactly if that does not fit. |
| `Amount.Int64Amount.AsDec` | policies/container-resources-policy/resource/amount.go:103-109 | A fresh decimal of the same value. |
| `Amount.Int64Amount.Cmp` | policies/container-resources-policy/resource/amount.go:111-158 | Quotient and sign of the remainder decide the true order at any two scales, also where the division is refused. |
| `Amount.CompareByQuotient` | policies/container-resources-policy/resource/amount.go:119-157 | Truncated quotient first, then the remainder's sign: that is the order of b and a * p for all signs. |
| `Amount.Int64Amount.Add` | policies/container-resources-policy/resource/amount.go:160-199 | Either the exact sum or the receiver unchanged; refused exactly if the rescaled summand or the sum does not fit. |
| `Amount.Int64Amount.Sub` | policies/container-resources-policy/resource/amount.go:201-204 | Exact where accepted, except that subtracting the smallest int64 adds it; unchanged where refused. |
| `Amount.Int64Amount.AsScale` | policies/container-resources-policy/resource/amount.go:206-215 | Rounds away from zero to the scale, never loses anything at a larger one, and says exactly whether the value was kept. |
| `Amount.Int64Amount.AsCanonicalBytes` | policies/container-resources-policy/resource/amount.go:217-244 | The digits and the exponent of the unique decimal form, also through the two detours to big integers. |
| `Amount.Int64Amount.AsCanonicalBase1024Bytes` | policies/container-resources-policy/resource/amount.go:246-255 | The digits and the exponent of the binary form of the amount rounded to a whole number, except for the smallest int64, which keeps all its factors. |
| `Amount.SmallestIsUnscaled` | policies/container-resources-policy/resource/amount.go:246-255 | -2^63 has only one int64 form, so that exception is a single representation. |
| `Amount.InfDecAmount.AsScale` | policies/container-resources-policy/resource/amount.go:263-269 | The decimal counterpart: rounded, in a new object, with the exact flag. |
| `Amount.InfDecAmount.AsCanonicalBytes` | policies/container-resources-policy/resource/amount.go:271-289 | The same decimal form as the int64 path; the loop that moves the exponent ends at the multiple of three below. |
| `Amount.InfDecAmount.AsCanonicalBase1024Bytes` | policies/container-resources-policy/resource/amount.go:291-299 | The same binary form as the int64 path, of the decimal rounded to a whole number, without its exception. |
| `Canonical.DecimalFormUnique` | policies/container-resources-policy/resource/quantity.go:68-74 | A value has at most one form m * 10^e with e a multiple of three and m not divisible by 1000. |
| `Canonical.BinaryFormUnique` | policies/container-resources-policy/resource/quantity.go:68-74 | A value has at most one form m * 1024^k with m not divisible by 1024. |
| `Canonical.ExponentIsLargest` | policies/container-resources-policy/resource/quantity.go:72-76 | No integer with another power of 1000 stands for the value if that power is larger. |
| `Canonical.PowerIsLargest` | policies/container-resources-policy/resource/quantity.go:72-76 | No integer with a larger power of 1024 stands for the value. |
| `Canonical.BinaryTextIs` | policies/container-resources-policy/resource/quantity.go:428-444 | In binary format, whole numbers from 1024 on are shown with binary units, all others exactly as in decimal format. |
| `Examples.Thousand` | policies/container-resources-policy/resource/quantity.go:422-460 | 1000 is 1k in decimal and binary format and 1e3 as an exponent and without a format; 1024 is 1Ki in binary format. |
| `Canonical.StrippedDecimalForm` | policies/container-resources-policy/resource/amount.go:224-243 | Pulling out all tens and putting back at most two gives that form, also for negative exponents. |
| `Canonical.CanonicalIsUnique` | policies/container-resources-policy/resource/quantity.go:401-459 | Value and format leave no choice: equal quantities print alike whichever representation they hold. |
| `Canonical.CanonicalTextIs` | policies/container-resources-policy/resource/quantity.go:401-459 | Hence any text that meets the definition is the canonical text. |
| `ParsedText.CanonicalTextExists` | policies/container-resources-policy/resource/quantity.go:401-459 | Every value of a quantity has a canonical text in every format. |
| `Suffix.ListSuffixer.AddSuffix` | policies/container-resources-policy/resource/suffix.go:46-59 | Adds one pair to the maps of both directions, with names and with bytes, and keeps the other entries. |
| `Suffix.NewBinSuffixes` | policies/container-resources-policy/resource/suffix.go:108-120 | Filling in the binary suffixes gives exactly the tables that look-ups in both directions are modelled by. |
| `Suffix.NewDecSuffixes` | policies/container-resources-policy/resource/suffix.go:121-134 | The same for the decimal suffixes, with the entry for 2^0 overwritten in one direction and kept in the other. |
| `Suffix.Interpret` | policies/container-resources-policy/resource/suffix.go:88-106 | The shortcut for common suffixes agrees with the table look-up and the exponent syntax behind it, on every string. |
| `Suffix.ConstructedSuffixReadsBack` | policies/container-resources-policy/resource/suffix.go:155-198 | A constructed suffix is interpreted as the unit it was constructed for, with exponents beyond an int32 cut to their low 32 bits and those beyond an int64 refused. |
| `Digits.RenderReadsBack` | policies/container-resources-policy/resource/amount.go:244-244 | Printed digits stand for the number they were printed from and have no leading zero. |
| `Digits.RenderOfDigits` | policies/container-resources-policy/resource/quantity.go:329-340 | Without leading zeros, digits are what their number prints as. |
| `Grammar.SplitIsUnique` | policies/container-resources-policy/resource/quantity.go:174-249 | Cutting off the longest run of a class of characters has one result; the scanner's meaning is defined by such cuts. |
| `Grammar.ScanText` | policies/container-resources-policy/resource/quantity.go:158-271 | For every string of the grammar the scanned parts are the parts it was built from: sign, digits less leading zeros, places after the point, suffix. |
| `Grammar.LiteralMeaning` | policies/container-resources-policy/resource/quantity.go:31-56 | Every number with an accepted suffix is accepted, and means what the rule of the next rows makes of its sign, its digits as one number, the count of digits after the point and its unit. |
| `Documented.BinaryNumber` | policies/container-resources-policy/resource/quantity.go:351-358 | For every literal, with a point or without, that has a binary suffix: it means the rounded and limited x with x * 10^places = sign and all digits as one number, times 2^e. |
| `Documented.DecimalNumber` | policies/container-resources-policy/resource/quantity.go:351-353 | For every literal with a decimal suffix or exponent whose scale fits an int32: the rounded x with x * 10^places = sign and all digits as one number, times 10^e. |
| `Documented.HeldIs` | policies/container-resources-policy/resource/quantity.go:360-386 | In elementary terms: the multiple of 10^-9 at or next beyond x away from zero, except that binary quantities stop at 2^63 - 1 and its opposite; a binary quantity other than zero between -1 and 1 becomes decimal. |
| `Documented.UnitOfName` | policies/container-resources-policy/resource/suffix.go:113-132 | The six binary names are the powers of 1024 in order, the ten decimal names the powers of 1000 from 10^-9 to 10^18. |
| `Documented.BinaryIsRead` | policies/container-resources-policy/resource/quantity.go:46-56 | What a literal with the name of the i-th power of 1024 is read as, from its digits alone: number times 1024^i, rounded and limited. |
| `Documented.DecimalIsRead` | policies/container-resources-policy/resource/quantity.go:46-56 | What a literal with a decimal name is read as, from its digits alone: number times the power of 1000, rounded to 10^-9. |
| `Documented.ExponentIsRead` | policies/container-resources-policy/resource/quantity.go:46-56 | What a literal with an exponent of 32 bits is read as, from its digits alone: number times 10^exponent, rounded to 10^-9. |
| `Documented.BinaryIsKept` | policies/container-resources-policy/resource/quantity.go:329-334 | The int64 path keeps a binary quantity as its text exactly if it has no digit after the point, its number is below 10^(14-3i) for the unit 1024^i, and the number is not divisible by eight. |
| `Documented.DecimalIsKept` | policies/container-resources-policy/resource/quantity.go:329-339 | It keeps a decimal quantity, other than 0, exactly if its whole part is not zero, all digits are below 10^18 and not divisible by 1000, and the exponent is a multiple of three from -9 on. |
| `Grammar.ErrorIs` | policies/container-resources-policy/resource/quantity.go:152-154 | Which error a string gets: a wrong form exactly if its suffix does not have the scanner's shape, a wrong suffix exactly if the shape is right and the unit unknown, a numeric error only without digits. |
| `Grammar.ShapeIs` | policies/container-resources-policy/resource/quantity.go:238-271 | The shape that the scanner lets through: letters from eEinumkKMGTP, then perhaps a sign, then digits, and nothing else. |
| `Examples.OneAndAHalf` | policies/container-resources-policy/resource/quantity.go:80 | 1.5 is 1.5 and prints as 1500m. |
| `Examples.OneAndAHalfGi` | policies/container-resources-policy/resource/quantity.go:81 | 1.5Gi is 1.5 * 2^30 and prints as 1536Mi. |
| `Examples.HalfMi` | policies/container-resources-policy/resource/quantity_test.go:377 | 0.5Mi is 2^19 and prints as 512Ki. |
| `Examples.AlmostOneNano` | policies/container-resources-policy/resource/quantity_test.go:368 | 0.9n is rounded up to 10^-9 and prints as 1n. |
| `Examples.Reprinted` | policies/container-resources-policy/resource/quantity.go:78-81 | Parsing and printing these inputs with the methods gives these four texts. |
| `Examples.NineExaIsLimited` | policies/container-resources-policy/resource/quantity_test.go:371 | 9Ei is held as 2^63 - 1. |
| `Examples.TwelveExaIsNot` | policies/container-resources-policy/resource/quantity_test.go:373 | 12E is held as 12 * 10^18, beyond the documented limit. |
| `Grammar.AcceptedIsLiteral` | policies/container-resources-policy/resource/quantity.go:31-56 | Nothing else is accepted, except that digits may be missing, and then the value is zero. |
| `Grammar.LiteralIsUnique` | policies/container-resources-policy/resource/quantity.go:31-56 | A string has at most one split into sign, digits, fraction and suffix. |
| `Grammar.ExponentIsAccepted` | policies/container-resources-policy/resource/suffix.go:189-197 | Of the documented exponents, with or without sign and point, exactly the integers that fit an int64 are accepted, cut to 32 bits. |
| `Grammar.SuffixIsAccepted` | policies/container-resources-policy/resource/suffix.go:88-106 | Accepted are exactly the binary and decimal suffixes of the documentation, n and u, and those exponents. |
| `Grammar.DocumentedIsAccepted` | policies/container-resources-policy/resource/quantity.go:35-56 | A quantity of the documented grammar is accepted unless its suffix is an exponent with a point or beyond an int64. |
| `Scanner.ParseQuantityString` | policies/container-resources-policy/resource/quantity.go:157-271 | The scanning loops compute exactly the parts that the definition by cuts describes, and fail on exactly the other strings. |
| `Scanner.RunEnd` | policies/container-resources-policy/resource/quantity.go:174-249 | One scanning loop: stops at the end of the longest run. |
| `Scanner.ScanSuffix` | policies/container-resources-policy/resource/quantity.go:238-271 | Letters, one sign, digits, and nothing after them. |
| `Decimal.ReadDecIs` | policies/container-resources-policy/resource/quantity.go:345-348 | The decimal reader and the scanner agree on the number, on its places after the point, and on what is no number. |
| `Parser.ParseQuantity` | policies/container-resources-policy/resource/quantity.go:274-389 | On every string, by either path: the error, or a quantity of the meaning's value and format, which the Documented rows give as numbers, that keeps the string exactly in the cases of BinaryIsKept and DecimalIsKept. |
| `Parser.FastProductFits` | policies/container-resources-policy/resource/quantity.go:293-325 | The precision guard is enough: reading the digits and multiplying by the power of two cannot overflow. |
| `Parser.BinaryProductFits` | policies/container-resources-policy/resource/quantity.go:303-308 | The estimate of three digits for ten bits is safe: digits times the power of two stay within int64 for every binary unit that leaves the precision non-negative. |
| `Parser.FastParse` | policies/container-resources-policy/resource/quantity.go:313-341 | On the int64 path the product at the adjusted scale, an int32, is the meaning, so no rounding and no limit is missed. |
| `Parser.ParseFast` | policies/container-resources-policy/resource/quantity.go:318-342 | The int64 path always returns, as a quantity without a decimal. |
| `Parser.ExactParse` | policies/container-resources-policy/resource/quantity.go:345-388 | On the other path the decimal reader's number gives the meaning, or the numeric error. |
| `Parser.ParseExact` | policies/container-resources-policy/resource/quantity.go:350-388 | Scaling, taking the absolute value, rounding, limiting, choosing the format and restoring the sign give the meaning. |
| `Parser.ApplyUnit` | policies/container-resources-policy/resource/quantity.go:350-358 | Subtracting the exponent from the int32 scale, or multiplying the unscaled number by the power of two and keeping the scale, gives the value of digits and unit that Documented.BinaryNumber and DecimalNumber are about. |
| `RoundTrip.UnitIsExact` | policies/container-resources-policy/resource/quantity.go:350-354 | The int32 scale gives the exact number of digits times ten to the exponent if and only if the places after the point less the exponent fit an int32. |
| `Parser.RoundToNano` | policies/container-resources-policy/resource/quantity.go:366-372 | Rounds away from zero to 10^-9; skipping zero makes no difference. |
| `Parser.Limit` | policies/container-resources-policy/resource/quantity.go:374-378 | Limits a binary quantity to 2^63 - 1 and no other. |
| `Parser.HeldBySign` | policies/container-resources-policy/resource/quantity.go:360-387 | Working on the absolute value is the same as rounding and limiting the signed value. |
| `Quantities.Quantity.Copy` | policies/container-resources-policy/resource/quantity.go:100-111 | Passing a quantity by value copies the fields and shares the decimal. |
| `Quantities.Quantity.DeepCopy` | policies/container-resources-policy/resource/quantity.go:391-399 | A copy of the same value with a decimal of its own. |
| `Quantities.Quantity.IsZero` | policies/container-resources-policy/resource/quantity.go:519-526 | Zero in either representation. |
| `Quantities.Quantity.AsDec` | policies/container-resources-policy/resource/quantity.go:499-507 | Promotes the receiver in place: value, format and what the cache means stay. |
| `Quantities.Quantity.Cmp` | policies/container-resources-policy/resource/quantity.go:595-603 | The sign of the exact difference in every mix of representations; promoting the receiver changes neither its value nor its cache. |
| `Quantities.Quantity.CmpInt64` | policies/container-resources-policy/resource/quantity.go:605-611 | The sign of the exact difference to an int64, without changes. |
| `Quantities.Quantity.Add` | policies/container-resources-policy/resource/quantity.go:565-580 | The exact sum in every mix of representations, also of a quantity with itself; cache cleared; a zero receiver takes over the format. |
| `Quantities.Quantity.Sub` | policies/container-resources-policy/resource/quantity.go:582-593 | The exact difference, except that subtracting the smallest int64 within int64 adds it; cache and format as in addition. |
| `Quantities.Quantity.Neg` | policies/container-resources-policy/resource/quantity.go:613-621 | The exact negation, except for the smallest int64, which stays. |
| `Quantities.Quantity.RoundUp` | policies/container-resources-policy/resource/quantity.go:545-563 | Rounds away from zero, says whether anything was lost, and keeps the cache only if nothing was. |
| `Quantities.Quantity.SetScaled` | policies/container-resources-policy/resource/quantity.go:776-781 | The new value, as an int64, with no cache. |
| `Quantities.Quantity.AsScale` | policies/container-resources-policy/resource/quantity.go:535-543 | A copy rounded away from zero to the scale, in the same representation, and whether it is exact; the quantity is untouched. |
| `Quantities.Quantity.CanonicalizeBytes` | policies/container-resources-policy/resource/quantity.go:401-459 | The canonical form of value and format whichever representation is held; only the smallest int64 in binary format is printed in full. |
| `Quantities.BinaryIsChosen` | policies/container-resources-policy/resource/quantity.go:430-445 | Binary units are used exactly for whole numbers of magnitude 1024 and more. |
| `Quantities.Quantity.String` | policies/container-resources-policy/resource/quantity.go:633-647 | Returns and caches the text; printing again gives the same; the cache reads back exactly if it did before or printing keeps the value. |
| `Quantities.TruthfulIsCoherent` | policies/container-resources-policy/resource/quantity.go:633-647 | A cache that is canonical reads back as soon as printing keeps the value. |
| `RoundTrip.DecimalTextReadsBack` | policies/container-resources-policy/resource/quantity.go:449-452 | A canonical decimal text reads back as its value if and only if its exponent is at least -9 and has a name (up to 18) or fits an int32. This shows what ignoring the look-up's result costs. |
| `RoundTrip.BinaryTextReadsBack` | policies/container-resources-policy/resource/quantity.go:453-458 | A canonical binary text reads back if and only if its power has a name and the value is within the limit of parsing, or it needs no suffix. |
| `RoundTrip.CanonicalTextReadsBack` | policies/container-resources-policy/resource/quantity.go:401-459 | Both together for every value and format, with the fall-back from binary to decimal. |
| `RoundTrip.SmallerExponentDiffers` | policies/container-resources-policy/resource/suffix.go:189-195 | Exponents that do not fit an int32 never come back as the same value. |
| `ParsedText.ParsedTextReadsBack` | policies/container-resources-policy/resource/quantity.go:401-459 | For every parsed string: the canonical text of its value reads back if and only if the value is zero, the format is binary, or the exponent is at most 18 (names) or 2^31 - 1. |
| `ParsedText.ParsedQuantityReadsBack` | policies/container-resources-policy/resource/quantity.go:633-647 | The same for the quantity that parsing returns and the text that String returns, cached input included. |
| `ParsedText.ShownTextReadsBack` | policies/container-resources-policy/resource/quantity.go:633-647 | For any quantity at all: the text reads back if and only if the cache is right or, without one, printing keeps the value. |
| `ParsedText.ThousandExaPrintsAsOne` | policies/container-resources-policy/resource/quantity.go:449-452 | The input for which the round trip fails: 1000E is accepted and printed as 1. |
| `ParsedText.DenotedIsHeld` | policies/container-resources-policy/resource/quantity.go:366-387 | Every parsed value is a whole number of 10^-9, and within int64 in binary format. |
| `ParsedText.ReusedInputIsCanonical` | policies/container-resources-policy/resource/quantity.go:329-339 | For input without plus sign, leading zeros or point and with a suffix as printing spells it: a string that is kept is the canonical text. |
| `ParsedText.ReusedInputIsPlain` | policies/container-resources-policy/resource/quantity.go:329-339 | Any string that is kept is the canonical text of its value if and only if it is plain in that sense. |
| `ParsedText.PlusSignIsKept` | policies/container-resources-policy/resource/quantity.go:329-339 | A kept string that is not canonical: +5. |
| `Runs.Perform` | policies/container-resources-policy/resource/quantity.go:545-647 | One operation on one variable: value, format and answer are those of exact arithmetic, and its cache still reads back or prints its value; a subtraction or negation that wraps, which is decided by the int64 amounts, gives the sum or the number itself instead. |
| `Runs.Step` | policies/container-resources-policy/resource/quantity.go:545-647 | Other variables keep value and cache, because no decimal is shared, and none becomes shared. |
| `Runs.Run` | policies/container-resources-policy/resource/quantity.go:274-781 | Any sequence of parsing, copying, adding, subtracting, negating, rounding, setting, comparing and printing: in every state on the way int64 amounts are their numbers, all values, orders and texts are those of exact arithmetic except at the steps reported as wrapping, and all caches stay right. |
| `Runs.RunIsExact` | policies/container-resources-policy/resource/quantity.go:565-621 | If no number that is subtracted or negated in exact arithmetic equals -2^63 at some scale, nothing wraps, and the end of the run is that of exact arithmetic from the numbers at its start, whatever the representations. |
| `Runs.WrapsOnSmallest` | policies/container-resources-policy/resource/amount.go:201-204 | A step wraps only on a number equal to -2^63 at some scale, and then its result is wrong. |
| `Runs.AddToCopy` | policies/container-resources-policy/resource/quantity.go:565-580 | Why sharing must be excluded: after adding to a plain copy, the original's cache is right if and only if there is none, no decimal is shared, or zero was added. |
| `Marshalling.Append` | policies/container-resources-policy/resource/quantity.go:650-674 | Appending to a slice: in place if there is room, else in a new array with the old one untouched. |
| `Marshalling.MarshalJSON` | policies/container-resources-policy/resource/quantity.go:649-674 | On all branches, in the buffer or not, the result is a quote, the text of String and a quote, and the quantity shows the same text afterwards. |
| `Marshalling.CloseInPlace` | policies/container-resources-policy/resource/quantity.go:660-666 | Appending suffix and quote in the buffer behind the digits neither moves nor overwrites anything. |
| `Marshalling.UnmarshalJSON` | policies/container-resources-policy/resource/quantity.go:681-702 | Readable bytes without quotes, such as a JSON number, are parsed as they are; bytes between quotes are parsed without the quotes and the white space within; an error changes nothing; null makes the quantity zero, and its cache is then right only if it was empty or read as zero. |
| `Marshalling.TextOfBytes` | policies/container-resources-policy/resource/quantity.go:690-694 | The text that is parsed: the bytes themselves if they are readable and not between quotes, else what is between the quotes. |
| `Marshalling.FiveIsRead` | policies/container-resources-policy/resource/quantity.go:690-701 | The JSON number 5 is read as five. |
| `Marshalling.MarshalledReadsBack` | policies/container-resources-policy/resource/quantity.go:649-702 | What marshalling writes is read back as the same value exactly if the text of String is. |
| `Text.TrimmedIsEmpty` | policies/container-resources-policy/validate.go:17-20 | A quantity is blank exactly if it consists of white space. |
| `Text.TrimmedIsBetween` | policies/container-resources-policy/resource/quantity.go:694 | Trimming leaves exactly what stands between the outermost white space. |
| `Text.ReadableIsDense` | policies/container-resources-policy/resource/quantity.go:694-694 | Text that parses contains no white space, so trimming does not change it. |
| `ScaleInt.ScaledValue` | policies/container-resources-policy/resource/scale_int.go:37-95 | Whenever the result fits: scaling up is exact, and scaling down is the ceiling exactly outside one condition, a negative number on the fast path that does not divide or is below int64; then it is the ceiling for the number's low 64 bits, or one more if these are negative and do not divide. |
| `ScaleInt.ScaledByBigInt` | policies/container-resources-policy/resource/scale_int.go:71-94 | The big-integer path is the ceiling for all signs. |
| `ScaleInt.QuantityScaledValue` | policies/container-resources-policy/resource/quantity.go:753-764 | For non-negative values both representations give the same ceiling. For negative ones the int64 form rounds away from zero; the decimal form gives the ceiling under an exact condition, at most one more if the unscaled number is an int64, and outside the condition what its low 64 bits give. |
| `ScaleInt.CeilIsAway` | policies/container-resources-policy/resource/quantity.go:753-764 | For non-negative values the ceiling is the rounding away from zero of the int64 form, and nothing else is. |
| `ScaleInt.Int64OfPow10` | policies/container-resources-policy/resource/scale_int.go:53-62 | Powers of ten up to 18 convert exactly; nothing is said of larger ones. |
| `QuotaChecks.CheckLimitVsAvailableQuota` | policies/rancher-project-quotas-namespace-validator/quota_checks.go:44-89 | Whatever numbers r, l, u the three strings count as, an empty one as zero: accepted exactly if r <= l - u; else the first unreadable argument or the excess. |
| `QuotaChecks.VerdictComparesNumbers` | policies/rancher-project-quotas-namespace-validator/quota_checks.go:45-86 | Where each string is empty and counts as zero, or stands for its number: no error exactly if r <= l - u, else the excess. |
| `QuotaChecks.VerdictNamesFirstUnreadable` | policies/rancher-project-quotas-namespace-validator/quota_checks.go:48-76 | A parse error is that of the first string that is neither empty nor readable, under the name of that argument. |
| `QuotaChecks.Exceeds` | policies/rancher-project-quotas-namespace-validator/quota_checks.go:78-86 | Subtracting from the deep copy leaves limit and used as they were. |
| `QuotaChecks.CheckRows` | policies/rancher-project-quotas-namespace-validator/quota_checks.go:139-144 | Every row that fails is reported, in order, with its own error. |
| `QuotaChecks.ValidateQuotas` | policies/rancher-project-quotas-namespace-validator/quota_checks.go:91-151 | No quota, no errors; without a namespace limit every string of it is empty; no errors exactly if each of the thirteen resources, written out, fits its own limit and usage; else the errors of the table's rows in order. |
| `QuotaChecks.AcceptedMeansAllFit` | policies/rancher-project-quotas-namespace-validator/quota_checks.go:139-150 | No report exactly if every row fits. |
| `QuotaChecks.ReportedIsViolated` | policies/rancher-project-quotas-namespace-validator/quota_checks.go:139-144 | A violation is reported exactly if a row of its name has its error. |
| `QuotaChecks.AcceptedByField` | policies/rancher-project-quotas-namespace-validator/quota_checks.go:103-137 | No report exactly if the verdict of each of the thirteen fields, compared with the same field of limit and usage, is empty. |
| `QuotaChecks.ReportedByName` | policies/rancher-project-quotas-namespace-validator/quota_checks.go:103-144 | For each of the thirteen names: a violation of that name is reported exactly if the field of that name is violated, with its error. |
| `HostPaths.PrefixesAreNested` | policies/hostpaths-psp-policy/validate.go:153-167 | Among prefixes of one path, being a prefix of each other is the same as being shorter, after adding the final slash. |
| `HostPaths.PrefixIsWholeElements` | policies/hostpaths-psp-policy/validate.go:153-167 | Without added slashes: a prefix that does not end in one covers itself and what lies below it; one that does covers what begins with it, and the path that lacks only the slash. |
| `HostPaths.CoversIs` | policies/hostpaths-psp-policy/validate.go:101-106 | An entry counts if it is a prefix of the path and empty or absolute. |
| `HostPaths.LongestLiesInAll` | policies/hostpaths-psp-policy/validate.go:104-109 | The entries that may decide are those that lie within every entry that covers the path. |
| `HostPaths.CheckMountAgainstAllowedHostPaths` | policies/hostpaths-psp-policy/validate.go:93-139 | No error exactly if the last-listed entry among the longest matching ones has the mount's read-only flag; no match gives one error of its own, other errors all ask for the other flag. |
| `HostPaths.FoolIsNotFoo` | policies/hostpaths-psp-policy/validate.go:153-157 | An entry for /foo does not allow /fool: the only error is that it is not in the list. |
| `HostPaths.DecidesNext` | policies/hostpaths-psp-policy/validate.go:100-127 | One turn of the loop: a matching entry takes over exactly if it is at least as long as the one that decided so far. |
| `HostPaths.OrderDoesNotMatter` | policies/hostpaths-psp-policy/validate.go:98-127 | Lists with the same entries give the same verdict if the longest matching entries agree on the flag. |
| `HostPaths.OrderMatters` | policies/hostpaths-psp-policy/validate.go:98-127 | If they do not agree, some reordering changes the verdict. |
| `HostPaths.VerdictIsOrderFree` | policies/hostpaths-psp-policy/validate.go:98-127 | Both together: the verdict is the same in all orders if and only if the longest matching entries agree. |
| `HostPaths.CheckVolumeHostPaths` | policies/hostpaths-psp-policy/validate.go:74-91 | No error exactly if every mount of every host-path volume is allowed. |
| `HostPaths.Validate` | policies/hostpaths-psp-policy/validate.go:33-71 | Accepted exactly if nothing is configured or all mounts of init containers and containers are allowed. |
| `HostPaths.OtherMountsAreIgnored` | policies/hostpaths-psp-policy/validate.go:80-87 | A mount is compared with the list only as a mount of its own volume, whether it comes from an init container or another. |
| `ContainerSettings.ResourceConfiguration.AllValuesAreZero` | policies/container-resources-policy/settings.go:110-114 | All six quantities are zero. |
| `ContainerSettings.ResourceConfiguration.TableIsChain` | policies/container-resources-policy/settings.go:63-92 | The fifteen pairs of the table say the same as the ascending chain of the configured values. |
| `ContainerSettings.ResourceConfiguration.NamesAreRight` | policies/container-resources-policy/settings.go:49-92 | Every pair of the table calls its two quantities by their own names. |
| `ContainerSettings.ResourceConfiguration.Valid` | policies/container-resources-policy/settings.go:58-108 | Accepted exactly if the configured values ascend along the chain and not everything is zero without being ignored; an error names the first pair of the table that is out of order. |
| `ContainerSettings.FirstViolation` | policies/container-resources-policy/settings.go:94-105 | The first pair that is out of order, if any. |
| `ContainerSettings.Check` | policies/container-resources-policy/settings.go:95-96 | A pair is in order if one of the two is zero or the lesser is not greater; the settings are not changed by comparing. |
| `ContainerSettings.Settings.ShouldIgnoreCPUValues` | policies/container-resources-policy/settings.go:41-43 | Values are ignored if the setting says so or all quantities are zero. |
| `ContainerSettings.Settings.ShouldIgnoreMemoryValues` | policies/container-resources-policy/settings.go:45-47 | The same for memory. |
| `ContainerSettings.Settings.Valid` | policies/container-resources-policy/settings.go:116-143 | Accepted exactly if something is configured, both chains ascend, and not both resources are left at zero; one of them may be; an error says which resources are at fault. |
| `ContainerValidation.ParseResourceQuantity` | policies/container-resources-policy/validate.go:138-152 | Fails exactly on missing, nil or unreadable quantities. |
| `ContainerValidation.ValidateResourceMin` | policies/container-resources-policy/validate.go:154-175 | Unreadable, below the minimum, or fine, by value. |
| `ContainerValidation.ValidateResourceMax` | policies/container-resources-policy/validate.go:177-198 | Unreadable, above the maximum, or fine, by value. |
| `ContainerValidation.VerdictsMeanBounds` | policies/container-resources-policy/validate.go:247-308 | No failure of the comparisons, in either order, means exactly that a given quantity keeps to its configured bounds. |
| `ContainerValidation.VerdictMeansConsistency` | policies/container-resources-policy/validate.go:112-136 | No complaint means exactly that the limit, where both are given, covers the request. |
| `ContainerValidation.VerdictMeansAccepted` | policies/container-resources-policy/validate.go:344-389 | No objection to a container means exactly that the specification accepts it. |
| `ContainerValidation.IsResourceLimitGreaterThanRequest` | policies/container-resources-policy/validate.go:112-136 | Where limit and request are both given: the unreadable one is reported, limit first, or a limit below the request, and nothing else. |
| `ContainerValidation.ValidateContainerResourceLimits` | policies/container-resources-policy/validate.go:228-273 | A missing limit becomes the printed default if there is one; a given limit is compared with the configured maximum, then with the minimum, and the first failure is reported; nothing else in the container changes, and the settings say the same afterwards. |
| `ContainerValidation.ValidateContainerResourceRequests` | policies/container-resources-policy/validate.go:275-311 | A given request is compared with the configured minimum, then with the maximum, and the first failure is reported. |
| `ContainerValidation.ValidateContainerResourceLimitsAndRequests` | policies/container-resources-policy/validate.go:200-226 | The first failure of the two; a change is reported only if there is none. |
| `ContainerValidation.AdjustResourceRequest` | policies/container-resources-policy/validate.go:22-34 | A missing request becomes the printed default if there is one, and only that changes. |
| `ContainerValidation.ValidateAndAdjustContainerConstraints` | policies/container-resources-policy/validate.go:313-342 | The first failure of the resources whose values are not ignored, memory first; without one, their missing limits are completed and the report of a change is exact. |
| `ContainerValidation.ValidateAndAdjustContainerResourceRequests` | policies/container-resources-policy/validate.go:92-110 | Missing requests of both resources are completed, whether or not values are ignored. |
| `ContainerValidation.StepsAreIndependent` | policies/container-resources-policy/validate.go:324-342 | Completing memory changes nothing for the processor. |
| `ContainerValidation.StepsMakeAdjustment` | policies/container-resources-policy/validate.go:361-388 | All limits before all requests, or resource by resource: same container, same report of a change. |
| `ContainerValidation.ValidateAndAdjustContainer` | policies/container-resources-policy/validate.go:344-389 | The first objection, bounds before the consistency of what was filled in, and acceptance exactly if the specification accepts; the container is then the completed one and the report of a change is exact. |
| `ContainerValidation.CheckPresenceLimits` | policies/container-resources-policy/validate.go:36-50 | Limits of resources whose values are ignored have to be there; the error names one that is ignored and missing. |
| `ContainerValidation.CheckPresenceRequests` | policies/container-resources-policy/validate.go:52-68 | Requests of resources whose values are ignored need an entry, even a blank one; the error names one that is ignored and missing. |
| `ContainerValidation.ValidateContainerCheckPresence` | policies/container-resources-policy/validate.go:70-90 | No error exactly if there are resources and what is ignored is present; the nil dereference happens exactly without resources when nothing is ignored. |
| `ContainerValidation.ShouldSkipContainer` | policies/container-resources-policy/validate.go:391-405 | Skipped exactly if some entry is the image, or ends in a star and the image begins with the rest. |
| `ContainerValidation.ValidatePodSpec` | policies/container-resources-policy/validate.go:407-424 | Accepted exactly if every container that is not skipped has resources, presents what is ignored and is accepted; all of them are then completed, skipped ones untouched, and the report of a change is exact; otherwise the error is the first objection to the first container that is rejected. |
| `ContainerValidation.DefaultsReadBack` | policies/container-resources-policy/validate.go:242-243 | Defaults whose cache is right, or whose value printing keeps, read back as themselves. |
| `ContainerValidation.AdmitTwice` | policies/container-resources-policy/validate.go:407-424 | A pod that was admitted is admitted again without a change if and only if every default that was filled in is not blank and, unless values are ignored, within its bounds; the pod is the completed one either way. |
| `ContainerValidation.SurvivingDefaultsSettle` | policies/container-resources-policy/validate.go:407-424 | Valid settings whose defaults survive printing meet that condition for every pod. |
| `ContainerValidation.FilledInAndRejected` | policies/container-resources-policy/validate.go:242-243 | Valid settings that do not: with 1000E as minimum and default limit of memory, an empty container is admitted and given the limit 1, and is rejected the next time. |
| `Admission.AscendsIs` | policies/container-resources-policy/settings.go:63-92 | The chain over six quantities, zero meaning not configured, is the conjunction of fifteen comparisons. |
| `Admission.ValidIs` | policies/container-resources-policy/settings.go:116-143 | Settings are accepted exactly if some resource is configured, the chains ascend, and it is not so that both resources are configured with all six quantities zero and neither is ignored. |
| `Admission.MissingIsNotGiven` | policies/container-resources-policy/validate.go:17-20 | A quantity is missing exactly if it has no entry, a nil one, or one of nothing but white space. |
| `Admission.PresenceIs` | policies/container-resources-policy/validate.go:36-90 | Resource by resource: a configuration that ignores its values, or has all six at zero, demands a limit of its own resource that is not blank and an entry among the requests. |
| `Admission.AcceptedKeepsWithin` | policies/container-resources-policy/validate.go:211-345 | Resource by resource: bounds are kept by what is given unless the values are ignored, and a given quantity has to be readable exactly where a bound is configured. |
| `Admission.GapsAreFilled` | policies/container-resources-policy/validate.go:22-34 | What every entry of a configured resource becomes: its own default where nothing is given and a default is configured, limits only if the values are not ignored; otherwise it stays. |
| `Admission.MutationIsChange` | policies/container-resources-policy/validate.go:347-389 | A change is reported exactly if the quantities change. |
| `Admission.MatchesIs` | policies/container-resources-policy/validate.go:391-405 | A star at the end of an entry stands for any rest of an image; without it the image has to be the entry. |
| `Admission.AdmissionIsIdempotent` | policies/container-resources-policy/validate.go:344-389 | An accepted container, once completed, is completed no further; it is accepted again as complete if and only if what was filled in is not blank and, unless values are ignored, within its bounds. |
| `Admission.ReadableDefaultsSettle` | policies/container-resources-policy/validate.go:242-243 | Under valid settings, defaults that read back as themselves meet that condition for every container. |
| `Admission.AdmissionGuarantees` | policies/container-resources-policy/validate.go:196-389 | After acceptance, each resource whose values are not ignored has every quantity within its bounds and its configured defaults present, and a limit covering its request if the maximum request and the minimum limit are configured, if and only if what was filled in for it keeps to the bounds. A changed container has limits covering requests in any case. |
| `Admission.OnlyGapsAreFilled` | policies/container-resources-policy/validate.go:22-34 | Given quantities and all other resources stay as they are. |
| `Admission.PodAdmissionIsIdempotent` | policies/container-resources-policy/validate.go:407-424 | The same equivalence for a whole pod with skipped containers. |
| `Admission.PodAdmissionGuarantees` | policies/container-resources-policy/validate.go:407-424 | All containers of an admitted and completed pod that are not skipped keep to valid settings if and only if what was filled in does wherever values are not ignored. |
| `Coverage.CoverageIsSeparation` | policies/container-resources-policy/settings.go:63-69 | Valid settings make every admitted limit of a resource cover its request if and only if values are not ignored and both a maximum request and a minimum limit are configured. |
| `Coverage.SomeUncovered` | policies/container-resources-policy/settings.go:63-69 | Otherwise there are a limit and a request that both keep to the bounds, the limit below the request. |
| `Coverage.AcceptedIsCovered` | policies/container-resources-policy/settings.go:63-69 | With both configured, whatever is accepted has its limit at its request or above, changed or not. |
| `CornerCases.ExponentIsCut` | policies/container-resources-policy/resource/suffix.go:189-195 | 1e4294967296 means 1. |
| `CornerCases.ScaleIsCut` | policies/container-resources-policy/resource/quantity.go:313-317 | 1.5e-2147483648 means 15e2147483647. |
| `CornerCases.SmallestExponentIsLarge` | policies/container-resources-policy/resource/quantity.go:350-354 | 1e-2147483648 means 1e2147483648. |
| `CornerCases.SmallestIsNotNegated` | policies/container-resources-policy/resource/quantity.go:582-621 | Negating -2^63, or subtracting it from zero, gives -2^63. |
| `CornerCases.LowBitsAreScaled` | policies/container-resources-policy/resource/scale_int.go:59-69 | -(2^64 + 5) with one place, converted to a whole number, gives 1; its ceiling is -1844674407370955162. |
| `CornerCases.NullKeepsString` | policies/container-resources-policy/resource/quantity.go:681-702 | A null makes a quantity with the cached string 5 zero, and the string stays. |

## Left out

- Amount.Int64Amount.Add: the scale is an unbounded integer, so a difference of two scales that wraps around an int32 is not modelled; the same holds for all uses of a scale outside parsing.
- Amount.Int64Amount.Sub: the amount is a value, so the update through the pointer receiver is a returned amount.
- Amount.Int64Amount.AsCanonicalBytes: the exponent is an unbounded integer.
- Amount.InfDecAmount.AsCanonicalBytes: the exponent is an unbounded integer.
- Suffix.ListSuffixer.AddSuffix: a nil map and an empty one are not distinguished.
- Int64Math.Int64Add: the result of a failed operation is not specified, because no caller uses it; the same holds for the other operations that return a flag.
- ScaleInt.ScaledValue: says nothing about results that do not fit an int64, where the code returns wrapped values.
- ScaleInt.Int64OfPow10: conversion of a float64 beyond int64 depends on the platform and may yield anything.
- Runs.Run: plain copies that share a decimal are excluded, because the property fails for them; the JSON null on a quantity with a cached string is excluded for the same reason.
- ContainerValidation.ValidatePodSpec: containers are distinct objects, as decoding JSON makes them, and the state of a rejected pod is not specified.
- ContainerValidation.ValidateAndAdjustContainer: resources and their maps are values of the container, so two containers sharing one map are not modelled.
- Marshalling.UnmarshalJSON: works on characters; bytes that are not valid UTF-8 are not modelled.
- Suffix.Interpret: look-ups use constant tables; that initialisation fills the maps with them is proved separately.
- Reuse of big integers from the pool, of the shared zero buffer, and the first-class global suffixer.
- `AsApproximateFloat64`, `QuantityValue`, the OpenAPI methods, `ToUnstructured` and the constructors of quantities: no branching.
- Error messages, logging, host calls, decoding of requests and settings, and building of responses.
- The library `inf.v0` itself: `Add`, `Sub`, `Cmp`, `Neg`, `Round` and `SetString` are given by their meaning; rejecting a decimal string whose scale does not fit an int32 is not modelled.
- The other policies of the repository: single-pass filters and set tests.
