# giantdecimal in Dafny

A model of the `Decimal` type of the Rust crate giantdecimal (`src/lib.rs`), with proofs about it.

A `Decimal` is a sign flag and two strings of ASCII digits: the integer part and the fraction part. Both are kept exactly as written, so `007.50` keeps its zeros. The model covers:

- the parser `Decimal::new` and `Decimal::try_from`;
- the formatter (`Display`);
- the predicates `is_empty` and `is_zero`;
- equality (`eq`) and ordering (`partial_cmp`);
- the helpers `pad` and `trim_zeros`;
- the arithmetic operators `+`, `-` and `*`.

The parser and the predicates are functions. `pad` has no loop: `Buffer.Pad` is a method that returns the padded string, proved equal to `PadLeft`/`PadRight`. The operations that loop in the source are methods with loops:

- the column loops of `add` and `sub` (`AddSub.SumColumns`, `AddSub.DiffColumns`), proved equal to `ColumnSum`/`ColumnDiff`; `AddSub.Add` and `AddSub.Sub` around them are proved equal to `AddSpec` and `SubSpec`;
- `partial_cmp` (`Order.PartialCmp`), proved equal to `Cmp`;
- the long multiplication of `mul`, which works on an `array<int>` of accumulator cells:
  - `Multiply.AddColumn` leaves the cells equal to `AddAt` of the old cells;
  - `Multiply.AccumulateRow` is specified by the value it adds: the cells stay digits, the cells left of the row are untouched, and their number grows by the row's digit times the multiplicand at the row's weight;
  - `Multiply.LongMultiply` returns `ToDigits(Times(x, y), 2n)`, the product in `2n` digits;
  - `Multiply.Mul` returns `MulSpec`.

The laws are proved about the specification functions.

The laws speak of the number a value denotes. `Magnitude(d)` is a real: the integer digits' number plus the fraction digits' number over `10^|fracPart|`. `SignedValue(d)` is the magnitude with the sign applied.

The model keeps the crate's quirks as the code has them; none is repaired:

- A sum of operands of the same sign keeps only as many integer digits as the longer operand. A carry out of the leftmost column is dropped, so `9 + 1` is `0.` (`AddSubLaws.AddDropsCarry`, `AddSubLaws.NinePlusOneIsZero`).
- A computed zero keeps the sign the operation gives it. `-1.5 - -1.5` prints as `-0.0`, and a zero product is negative when the operands' signs differ.
- Equality ignores leading integer zeros and trailing fraction zeros, but the ordering does not ignore them:
  - `1.1 == 1.10`, yet `partial_cmp` puts `1.1` below `1.10`;
  - `007` is above `10`.
- The parser accepts `"-"`, `"+"` and `"."`, giving a value with both digit strings empty.

The sign of a same-sign difference is decided on the padded operands (`src/lib.rs:283-289`). It is `self.is_positive` when the padded `(int, frac)` pair of `self` is at least that of `other`, and `!other.is_positive` otherwise, which is the arithmetically correct sign.

Modules, one concept each:

- `Comparison`: Rust's `Ordering` and the string and tuple orderings the code relies on.
- `Arith`: arithmetic facts over plain variables.
- `Digits`: digit strings and their numbers.
- `Buffer`: `pad` and `trim_zeros`.
- `Decimals`: the value, the parser, the formatter, `is_empty` and `is_zero`.
- `Equality`: `eq`.
- `Order`: `partial_cmp`.
- `AddSub` and `AddSubLaws`: `+` and `-`.
- `Multiply` and `MultiplyLaws`: `*`.

## Model

| member | source | states |
|---|---|---|
| Decimals.Parse | src/lib.rs:29-54 | fails with `Empty` exactly on the empty text; a parsed value has only digits in both parts and is negative exactly when the text starts with `-` |
| Decimals.Display | src/lib.rs:13-20 | the text has one character more than the digits, two when negative; a negative value starts with `-`; the fraction digits end the text right after a `.` |
| Decimals.StripSign | src/lib.rs:34-41 | at most the first character is removed; it is removed exactly when it is `-` or `+`; the sign is negative exactly for a leading `-` |
| Decimals.TryFrom | src/lib.rs:56-58 | gives a value exactly when `new` succeeds, and then the value `new` gives |
| Decimals.SplitOnce | src/lib.rs:43 | with a `.` present the text is the part before, the `.` and the part after, and the part before has no `.`; without one it is the whole text and `""` |
| Decimals.ParseAccepts | src/lib.rs:29-54 | `new` succeeds exactly when the text is non-empty and, after one sign, is digits with at most one `.`; it fails with `InvalidDigit` exactly on the other non-empty texts |
| Decimals.ParseFields | src/lib.rs:34-53 | on success, one leading `-` or `+` is removed and the rest is stored verbatim: the integer digits, then the `.` and the fraction digits when there is a `.` |
| Decimals.ParseBareSignOrPoint | src/lib.rs:29-54 | `"-"`, `"+"` and `"."` parse to values with both parts empty and the signs negative, positive and positive |
| Decimals.ParseIsEmpty | src/lib.rs:60-65 | `is_empty` holds of a parsed value exactly when the unsigned text is `""` or `"."` |
| Decimals.IsEmpty | src/lib.rs:60-65 | `is_empty` holds exactly when the value prints as a bare `.` or `-.`, and an empty value is a zero |
| Decimals.IsZero | src/lib.rs:67-72 | `is_zero` holds exactly when both digit strings are all zeros |
| Decimals.ParseDisplay | src/lib.rs:13-54 | parsing the formatted text of any digit-only value gives the same value back |
| Decimals.DisplayParse | src/lib.rs:13-54 | formatting a parsed value gives back the text itself when the text has a `.` and no `+` |
| Decimals.IsZeroIffZero | src/lib.rs:67-72 | `is_zero` holds exactly when the magnitude is zero |
| Decimals.DisplayZero | src/lib.rs:13-20 | a zero with one digit on each side prints as `0.0` or `-0.0` |
| Decimals.SignRule | src/lib.rs:411 | a value of magnitude `ma * mb`, positive exactly when the operands' signs agree, has the product of their signed values as its value |
| Buffer.Pad | src/lib.rs:143-155 | the result is the string padded with `'0'`s on the left (when `left`) or on the right up to the target length, or unchanged when already that long |
| Buffer.PadDigits | src/lib.rs:143-155 | padding digits gives digits, of length the larger of the old length and the target |
| Buffer.PadLeftKeeps | src/lib.rs:143-155 | left padding keeps the string as the suffix, adds only zeros, reaches the target and keeps the number |
| Buffer.PadRightKeeps | src/lib.rs:143-155 | right padding keeps the string as the prefix, adds only zeros, reaches the target and multiplies the number by ten per added place |
| Buffer.TrimZeros | src/lib.rs:346-357 | the result is never empty; it is `"0"` exactly when the input is all zeros; otherwise it is the input without its leading (or trailing) zeros and starts (or ends) with a non-zero digit |
| Buffer.ValTrimLeading | src/lib.rs:346-357 | trimming leading zeros keeps the number |
| Buffer.ValTrimTrailing | src/lib.rs:346-357 | trimming trailing zeros keeps the fraction: the numbers cross-multiplied by the two scales agree |
| Buffer.TrimZerosTrims | src/lib.rs:346-357 | `trim_start_matches('0')` (or `trim_end_matches('0')`) gives the same string on the output of `trim_zeros` as on its input |
| Comparison.CompareStrReverse | src/lib.rs:173-183 | swapping two strings reverses their order |
| Comparison.CompareStrEqual | src/lib.rs:173-183 | two strings compare `Equal` exactly when they are the same |
| Comparison.CompareStrTransitive | src/lib.rs:173-183 | the string order is transitive |
| Comparison.CompareStrConcat | src/lib.rs:173-183 | comparing two concatenations whose first parts have equal length is comparing the pairs lexicographically |
| Digits.CompareStrIsNumeric | src/lib.rs:266-289 | digit strings of equal length are ordered as the numbers they denote |
| Equality.Eq | src/lib.rs:75-85 | values related by `eq` are zeros together or not at all |
| Equality.EqIsEquivalence | src/lib.rs:75-85 | `eq` is reflexive, symmetric and transitive |
| Equality.EqIgnoresPadding | src/lib.rs:75-85 | zeros added left of the integer digits or right of the fraction digits do not change equality |
| Equality.SignedZerosDiffer | src/lib.rs:75-85 | a non-negative zero never equals a negative zero |
| Equality.TrimEndIffFraction | src/lib.rs:78 | two fraction digit strings agree once trailing zeros are trimmed exactly when they denote the same fraction |
| Equality.EqIffSameValue | src/lib.rs:75-85 | `eq` holds exactly when the signs are equal and the magnitudes are equal |
| Order.Cmp | src/lib.rs:87-141 | a non-negative value is above a negative one; two negatives order as their digit strings in reverse; `Equal` needs equal signs and equal integer lengths |
| Order.PartialCmp | src/lib.rs:87-141 | the loop-and-early-return method returns the ordering `Cmp` defines: sign first, then integer lengths, integer digits, fraction digits and fraction lengths, reversed for two negatives |
| Order.CmpReverse | src/lib.rs:87-141 | swapping the operands reverses the outcome |
| Order.CmpEqualIff | src/lib.rs:87-141 | `Equal` is returned exactly for identical values, so `1.1` and `1.10` are not `Equal` |
| Order.CmpTransitive | src/lib.rs:87-141 | the order is transitive |
| Order.CmpAlignedIsNumeric | src/lib.rs:87-141 | on operands padded to the same lengths, the order is that of the signed values, unless the two are zeros of opposite signs |
| Order.LeadingZerosOutrank | src/lib.rs:96-104 | `007` is above `10` though its magnitude is smaller |
| Order.TrailingZerosOrderBelow | src/lib.rs:75-141 | `1.1` equals `1.10` under `eq`, yet `partial_cmp` says `Less` |
| AddSub.SumColumns | src/lib.rs:193-223 | the right-to-left column loop with carry computes `ColumnSum` |
| AddSub.DiffColumns | src/lib.rs:298-322 | the right-to-left column loop with borrow computes `ColumnDiff` |
| AddSub.ColumnSum | src/lib.rs:193-223 | the column sum has one digit per column and a carry out of at most one |
| AddSub.ColumnDiff | src/lib.rs:298-322 | the column difference has one digit per column and a borrow out of at most one |
| AddSub.ColumnSumValue | src/lib.rs:193-223 | the column sum's digits plus its carry out, weighted by `10^n`, are the sum of the two numbers and the carry in |
| AddSub.ColumnDiffValue | src/lib.rs:298-322 | the column difference's digits plus the subtrahend and borrow in equal the minuend plus the borrow out weighted by `10^n` |
| AddSub.Add | src/lib.rs:157-249 | `add` returns `AddSpec`: pad, then add column by column with the sign for equal signs, or hand over to `sub` and set the sign of the larger operand |
| AddSub.Sub | src/lib.rs:251-344 | `sub` returns `SubSpec`: pad, order by padded strings, subtract the smaller from the larger for equal signs, or hand over to `add` |
| AddSub.AddSpec | src/lib.rs:157-249 | the sum is digits of the padded integer and fraction lengths, with the operands' sign when they agree |
| AddSub.SubSpec | src/lib.rs:251-344 | the difference is digits of the padded integer and fraction lengths, with the sign of `a` when the signs differ |
| AddSub.PaddedOrder | src/lib.rs:173-183 | the tuple order of the padded parts is the order of the padded numbers |
| AddSubLaws.AddValue | src/lib.rs:157-249 | when the sum fits in the padded integer digits, the signed value of `a + b` is the sum of the signed values |
| AddSubLaws.SubValue | src/lib.rs:251-344 | under the same condition, the signed value of `a - b` is the difference of the signed values |
| AddSubLaws.AddDropsCarry | src/lib.rs:208-229 | when the same-sign sum overflows the padded integer digits, the result is the sum minus `10^L` with the operands' sign |
| AddSubLaws.AddCommutative | src/lib.rs:157-249 | `a + b` and `b + a` are the same value, digit for digit and sign for sign |
| AddSubLaws.SubSelf | src/lib.rs:251-344 | `a - a` is all zeros of `a`'s padded lengths, with `a`'s sign |
| AddSubLaws.AddOpposite | src/lib.rs:157-249 | `a + (-a)` is a non-negative zero |
| AddSubLaws.AddCancels | src/lib.rs:175-183 | operands of opposite signs and equal magnitudes, such as `1.0` and `-1`, add up to a zero, and that zero is non-negative |
| AddSubLaws.SubIsAddNegated | src/lib.rs:329-340 | `a - b` is `a + (-b)` up to the sign; if they differ, `a - b` is a negative zero |
| AddSubLaws.NinePlusOneIsZero | src/lib.rs:208-229 | `9 + 1` is `0` and prints as `0.` |
| AddSubLaws.NegativeZero | src/lib.rs:283-327 | `-1.5 - -1.5` prints as `-0.0` |
| Multiply.Trimmed | src/lib.rs:409-411 | the trimmed product is digits only and keeps the sign |
| Multiply.MulSpec | src/lib.rs:359-418 | the product is digits only, non-negative exactly when the signs agree, with a non-empty integer part free of leading zeros (or `"0"`) and a non-empty fraction part free of trailing zeros (or `"0"`) |
| Multiply.RenderDigits | src/lib.rs:399-402 | cells holding digits render as the `n`-digit form of the number they denote |
| Multiply.Render | src/lib.rs:399-402 | cells holding digits render as one digit character per cell |
| Multiply.AddColumn | src/lib.rs:390-394 | the cells after one column are `AddAt` of the old cells |
| Multiply.AccumulateRow | src/lib.rs:383-397 | one row adds the digit times the left operand at the row's weight and leaves the cells digits and the cells left of the row unchanged |
| Multiply.LongMultiply | src/lib.rs:380-398 | the cells hold the exact product of the two padded numbers in `2n` digits |
| Multiply.Mul | src/lib.rs:359-418 | `mul` returns `MulSpec` |
| Multiply.MulResult | src/lib.rs:399-416 | padding, splitting `2F` places from the right and trimming the rendered product gives `MulSpec` |
| Multiply.ProductSplit | src/lib.rs:404-408 | the split of the padded product string gives the product's first digits (up to trimmed zeros) and its last `2F` digits |
| MultiplyLaws.TrimmedMagnitude | src/lib.rs:409-410 | trimming keeps the magnitude |
| MultiplyLaws.ProductNumber | src/lib.rs:363-408 | the untrimmed product is the product of the padded numbers and fits the `2(L + F)` digits given to it |
| MultiplyLaws.ProductRatios | src/lib.rs:363-408 | with `p = 10^F`, the operands' magnitudes are `x / p` and `y / p` and the product's is `x * y / p^2` |
| MultiplyLaws.MulMagnitude | src/lib.rs:359-418 | the magnitude of `a * b` is the product of the magnitudes: no digit is lost |
| MultiplyLaws.MulValue | src/lib.rs:359-418 | the signed value of `a * b` is the product of the signed values, and the sign is positive exactly when the signs agree |
| MultiplyLaws.MulZeroIff | src/lib.rs:359-418 | a product is zero exactly when an operand is |
| MultiplyLaws.MulCommutative | src/lib.rs:359-418 | `a * b` and `b * a` are the same value |
| MultiplyLaws.MulByUnit | src/lib.rs:359-418 | multiplying by a positive value of magnitude one gives a value `eq` to the other operand |
| MultiplyLaws.MulByOne | src/lib.rs:359-418 | `a * 1` is `eq` to `a` |
| MultiplyLaws.MulRespectsEq | src/lib.rs:359-418 | operands equal under `eq` give products equal under `eq` |
| MultiplyLaws.ProductEq | src/lib.rs:359-418 | `a * b` is `eq` to every value with the product's sign and magnitude |
| MultiplyLaws.TwoTimesThree | src/lib.rs:359-418 | `2 * 3` is `eq` to `6` |
| MultiplyLaws.TenthTimesTwoTenths | src/lib.rs:359-418 | `0.1 * 0.2` is `eq` to `0.02` |
| MultiplyLaws.ZeroProductDisplay | src/lib.rs:359-418 | a zero product prints as `0.0`, or `-0.0` when the operands' signs differ |

## Left out

- The `Arbitrary` implementation and the fuzz targets are test scaffolding, not behaviour of the type. The round trip the fuzz target checks is `Decimals.ParseDisplay`.
- `fmt::Formatter`, `Debug` and `Clone` are left out. `Display` is the string it writes.
- The `Option` around the result of `partial_cmp` is always `Some`, so `Order.PartialCmp` returns the `Ordering` itself.
- `Buffer.Pad`: the Rust `pad` updates its `&mut String` in place. The model returns the padded string, which the callers assign.
- Rust measures strings in bytes and the model in characters. The two agree on every string that reaches the arithmetic, because a parsed value holds ASCII digits only. `Order.PartialCmp` is modelled on characters for any value.
- The digit arithmetic in `u32` and `i32`, and the `usize` lengths, are modelled as unbounded integers. `Valid` and the loop invariants keep every column value small: a column sum is at most 19 and a digit product plus carry at most 89. A cell of `res_vec` is at most 10 at the head of each column (`Multiply.RowCells`). Just after `res_vec[pad_f + pad_s + 1] += inter_product` it is at most 19, before the carry step brings it back to a digit. So no wrap-around can occur on those values. The lengths are not bounded.
- The `unwrap` and `unwrap_or_default` around `char::from_u32` are not modelled as separate paths. The cells are proved to hold digits (`Multiply.RenderDigits`), so the fallback is never taken.
- `MultiplyLaws.MulMagnitude`, `MultiplyLaws.MulValue` and `MultiplyLaws.ProductEq` name the operands' magnitudes or signed values as parameters. A `requires` ties each parameter to its operand. The statement is the same as with the magnitudes written out.
