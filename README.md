# timeFormatting, modelled in Dafny

`timeFormatting(seconds)` in `TimeFormatting.js` turns a number of seconds into a clock
string. The output is `"mm:ss"` for a duration under one hour and `"hh:mm:ss"` otherwise.
The function works in three steps:

1. It splits the duration into hours, minutes and seconds with floor division and remainder.
2. It writes each field in decimal, with a `"0"` in front of a field of one digit.
3. It joins the fields with colons. The hours field and its colon appear only when the hours are greater than zero.

The Dafny model has three modules:

- `Decimal` (Decimal.dfy) renders a non-negative integer as a string the way JavaScript does when it concatenates a whole number with a string (`NatToDigits`). It also has a reader for digit strings (`DigitsToNat`), which the specification uses.
- `Strings` (Strings.dfy) has joining on a separator, the matching split, and counting a character.
- `TimeFormatting` (TimeFormatting.dfy) holds the function itself, built from `Decompose`, `Pad2` and `HoursText`. It also holds the properties proved about it and `Parse`, a reader for its output that exists only to state the round trip.

Each guard in the source is written as `"" + x > k`. JavaScript reads this as `("" + x) > k` and turns the string back into a number, so the comparison is numeric. The model uses the numeric comparisons `x > 0` and `x > 9` directly. The hours, minutes and seconds all share one padding rule, `x > 9 ? x : "0" + x`, so the model defines it once, as `Pad2`.

## Model

| member | source | states |
|---|---|---|
| `Decimal.NatToDigits` | TimeFormatting.js:11-13 | A number written into a string is a non-empty run of decimal digits. It starts with `0` only if the number is 0, and it is one character long exactly when the number is below 10. |
| `Decimal.DigitsRoundTrip` | TimeFormatting.js:11-13 | Reading the decimal rendering of `n` gives back `n`. |
| `Decimal.DigitsLength` | TimeFormatting.js:11 | The rendering of `n` has exactly as many digits as `n` has in decimal (`10^(k-1) <= n < 10^k`). A field of 100 or more therefore has three or more digits. |
| `TimeFormatting.Decompose` | TimeFormatting.js:5-7 | The split is exact: `hours*3600 + minutes*60 + seconds` equals the input, with `minutes < 60` and `seconds < 60`. The hours are `seconds / 3600`, the minutes `(seconds / 60) % 60` and the seconds `seconds % 60`. |
| `TimeFormatting.DecomposeUnique` | TimeFormatting.js:5-7 | Only one triple of fields has minutes and seconds below 60 and adds up to the input, and that triple is what `Decompose` returns. |
| `TimeFormatting.Pad2` | TimeFormatting.js:11-13 | A field's text is at least two digits long and reads back as the field's value. It is exactly two digits when the value is below 100. It starts with `0` exactly when the value is 9 or less. |
| `TimeFormatting.HoursText` | TimeFormatting.js:11 | The hours prefix is empty exactly when the hours are 0. Otherwise it is at least two digits followed by one colon. |
| `TimeFormatting.TimeFormatting` | TimeFormatting.js:4-16 | The output is at least five characters long. |
| `TimeFormatting.SplitOutput` | TimeFormatting.js:5-15 | Split on `:`, the output has 3 segments when the input is at least 3600 and 2 otherwise. The last two segments are exactly two digits each and read as `(seconds/60)%60` and `seconds%60`. When the hours segment is present it reads as `seconds/3600`, starts with `0` exactly when the hours are 9 or less, and for 10 hours or more is the unpadded rendering. |
| `TimeFormatting.UnderAnHour` | TimeFormatting.js:1-2 | The output is exactly 5 characters long if and only if the input is under 3600. In that case it has the form digit, digit, `:`, digit, digit. |
| `TimeFormatting.OutputCharacters` | TimeFormatting.js:11-15 | The output has exactly one colon under an hour and exactly two otherwise. Every other character is a decimal digit. |
| `TimeFormatting.RoundTrip` | TimeFormatting.js:5-15 | Splitting the output on `:` and reading the parts as hours, minutes and seconds gives back the input. |
| `TimeFormatting.FormattingInjective` | TimeFormatting.js:4-16 | Two different durations never give the same string. |
| `TimeFormatting.ExamplesUnderAnHour` | TimeFormatting.js:11-15 | 0 gives `"00:00"`, 5 gives `"00:05"`, 65 gives `"01:05"` and 3599 gives `"59:59"`. |
| `TimeFormatting.ExamplesOverAnHour` | TimeFormatting.js:11-15 | 3600 gives `"01:00:00"` and 3661 gives `"01:01:01"`. |
| `TimeFormatting.ExampleHundredHours` | TimeFormatting.js:11-15 | 360000 gives `"100:00:00"`: an hours field of three digits gets no padding. |
| `Strings.SplitJoin` | TimeFormatting.js:15 | When no part contains the separator, splitting the joined parts gives back the parts. This is what makes the colon join at line 15 reversible. |

## Left out

- Negative, fractional and non-numeric inputs. The source has no guard against them, and JavaScript's `%` and `Math.floor` on such values give results nobody intended. The input is therefore a `nat`.
- JavaScript's `Number` is an IEEE-754 double. For non-negative whole numbers below 2^53 the arithmetic is exact, so the model uses unbounded integers and does not model the loss of precision above 2^53.
- JavaScript's rules for turning strings into numbers and back. Only the numeric comparisons they reduce to are modelled.
- `Parse` is not part of the source. It is a reader for the output, used to state the round trip and injectivity.
