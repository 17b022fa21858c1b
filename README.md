# ReadPars in Dafny

A model of ReadPars, a small C++ library for reading parameter files. A
parameter file is a text file of lines. A line is empty, or a comment
starting with `#`, or a data line `name value [value ...]`. The reader opens
the file and reads it line by line with `readline`. On each data line it
reads the parameter name, then the caller reads the values with `readvalue`
(exactly one value) or `readvalues` (exactly `n` values). Each value is
coerced into the destination kind (`int`, `size_t`, `double` or `bool`) and
optionally checked by a caller-supplied checker. Every anomaly throws a
`std::runtime_error`. The messages of a file that cannot be opened or is
empty name only the file. A name that cannot be read is reported with the
line number and the file. Every other message also names the parameter.

The model has nine modules:

- `Wrappers` holds `Option`.
- `Text` covers characters, `std::to_string` of a line number (`NatToString`) and `std::getline` (`TakeLine`).
- `Messages` holds the error context, the error taxonomy, the nine message formats and the checker wrapper `CheckError`. An `Outcome` is `Done` or `Failed(error)`. The error records its kind, the context at the throw and, for a checker failure, the checker's message. `What` renders it as the exact text of the thrown exception. `MessageKind` proves that this text determines the kind.
- `Cursor` models the `std::istringstream` of the current line: the line text and a read position. `NextToken` is `line >> input`, `Tokens` lists the tokens left, and `AtEnd` is `iseol`.
- `Numbers` models `stream >> x` on a token with the leftover-character check: a recogniser for decimal literals that yields the exact value as a `real`, and fails on a value that overflows a `double`.
- `Literals` spells out the literals the extraction reads, part by part, and proves the value each one parses to.
- `Coercion` holds the destination kinds, the three guards of `read<T>` and `static_cast<T>`.
- `LineReads` defines what one read on the current line produces, as functions of the line and the read position: the name header of a data line, `read`, `readvalue` and the `readvalues` loop. It proves their properties in terms of the list of tokens left on the line.
- `Reader` holds the class `ReadPars`. Its fields are the ones the C++ class updates. Its methods carry the same branches and loops as the C++. Each method that reads the current line (`Read`, `ReadValue`, `ReadValues` and its loop, and the header part of `ReadLine`) is proved equal to the `LineReads` function that specifies it. `ReadNext` is proved against `Cursor.NextToken` and `Cursor.Readable`. `Open`, `Reset`, `Close` and `ReadError` state their new state directly.

`Scenarios` replays the library's own test of an unknown parameter and the driver's loop over the lines of a file.

Behaviour of the code that the model keeps:

- On any error, `readvalues` leaves the elements already pushed in the caller's vector. The model returns them too.
- End of line is `peek() == eof`, so trailing whitespace after the last token is not end of line. `readvalue` then reports "Too many values". `readvalues` also reports "Too many values" when it has already read `n` values. With fewer than `n` values it reads on and fails with "Could not read value", because the extraction finds no token.
- A number whose magnitude rounds to infinity as a `double` (such as `1e400`) makes `stream >> x` fail, so it is "Invalid value type".
- A `bool` destination passes all three guards, because `bool` is both integral and unsigned. Only 0 and 1 are accepted: 0.5 fails the integral guard.

## Model

| member | source | states |
|---|---|---|
| Text.NatToString | src/readpars.cpp:34 | `std::to_string` of a line number is a non-empty digit string without a leading zero |
| Text.NatToStringRoundTrip | src/readpars.cpp:34 | the digits of the rendered line number denote that number |
| Text.NatToStringInjective | src/readpars.cpp:34-40 | two line numbers are rendered alike exactly when they are equal, so messages for different lines differ |
| Text.TakeLine | src/readpars.cpp:146 | `std::getline` always consumes part of a non-empty file, so reading lines terminates |
| Text.TakeLineSplits | src/readpars.cpp:146 | the line has no newline; the file is the line, the newline and the rest, or all line when it has no newline |
| Messages.CheckError | src/readpars.cpp:51-64 | an empty checker result is no error; a non-empty one is thrown as a checker failure carrying that result and the current context |
| Messages.CheckErrorMessage | src/readpars.cpp:59 | a checker failure's text is "Parameter", the name, the checker's message, the line and the file |
| Messages.MessageKind | src/readpars.cpp:32-40 | each of the nine formats and the checker wrapper is recognised as exactly its own error from the text alone, for every name, line and file |
| Cursor.SkipSpace | src/readpars.cpp:107 | extraction skips exactly the whitespace in front of the token |
| Cursor.TokenEnd | src/readpars.cpp:107 | the token extends to the next whitespace or the end of the line |
| Cursor.NextToken | src/readpars.cpp:107 | `line >> input` consumes leading whitespace and one maximal non-whitespace run; nothing is extracted exactly when only whitespace is left, and then the whole rest is consumed |
| Cursor.Tokens | src/readpars.hpp:98 | every token left on the line is non-empty |
| Cursor.Readable | src/readpars.cpp:110-124 | specification predicate of what `readnext` accepts: a non-empty token of letters, digits, dots and minus signs; `Reader.ReadPars.ReadNext` is proved to accept exactly these |
| Cursor.EndOfLine | src/readpars.hpp:46 | at `iseol` no token is left; short of it, no token is left if and only if the rest of the line is all whitespace, and the line then ends in whitespace |
| Cursor.AfterToken | src/readpars.hpp:98-116 | after one extraction the remaining tokens are the rest of the list, and trailing whitespace is unchanged |
| Numbers.ParseNumber | src/readpars.hpp:194 | specification function of `stream >> x` with the leftover check: the recogniser's exact value, kept only within the range of `double`; `Literals.ShapeParse` gives its value on every literal and `Numbers.OverflowBoundValue` the range |
| Numbers.TwoAdd | src/readpars.hpp:194 | powers of two multiply by adding exponents |
| Numbers.Midpoint | src/readpars.hpp:194 | for an `m`-bit significand and top exponent `e + 1`, `2^(m+e+1) - 2^e` lies halfway between the largest finite value and `2^(m+e+1)`, the point from which rounding to nearest overflows |
| Numbers.OverflowBoundValue | src/readpars.hpp:194 | the overflow bound used by the parse is exactly `2^1024 - 2^970` |
| Numbers.OverflowBoundMidpoint | src/readpars.hpp:194 | the bound is the `Midpoint` of binary64 (`m = 53`, `e = 970`): twice it is the largest finite double `(2^53 - 1) * 2^971` plus `2^1024` |
| Numbers.RecogniseChars | src/readpars.hpp:194 | a recognised token ends in an accepting state and holds only literal characters |
| Numbers.ParseNumberChars | src/readpars.hpp:194-195 | a token that parses is non-empty and made of digits, dots, minus signs and exponent marks |
| Numbers.RecogniseDigits | src/readpars.hpp:194 | a run of digits accumulates into the mantissa and ends accepted |
| Numbers.DigitRun | src/readpars.hpp:194 | a run of digits moves the recogniser to the digit phase of where it stands and appends the digits to the mantissa or the exponent |
| Numbers.DigitsAppend | src/readpars.hpp:194 | two digit strings joined denote the first number shifted by the length of the second, plus the second |
| Numbers.DigitsParse | src/readpars.hpp:194 | a digit string parses to the number it denotes, or fails when that overflows |
| Numbers.NegativeDigitsParse | src/readpars.hpp:194 | a minus followed by digits parses to the negated number, or fails when that overflows |
| Numbers.DecimalAt | src/readpars.hpp:194 | a token `digits.digits` is recognised as its digits without the dot, scaled down by the number of digits after the dot |
| Numbers.DecimalLiteral | src/readpars.hpp:194 | the same for the token built from a whole part and a fraction part |
| Numbers.FractionValue | src/readpars.hpp:194 | `whole` shifted left by `f` places plus `fraction`, scaled back down by `f` places, is `whole` plus `fraction` over ten to the `f` |
| Numbers.DecimalValue | src/readpars.hpp:194 | the joined digits scaled down by the fraction's length are the whole part plus the fraction part over ten to its length |
| Numbers.DecimalParse | src/readpars.hpp:194 | `whole.fraction` parses to the whole number plus the fraction's number over ten to the fraction's length, or fails when that overflows |
| Numbers.ExponentHead | src/readpars.hpp:194 | a token starting `digits e [-]` is recognised as its rest from the exponent phase, with the digits as the mantissa |
| Numbers.ExponentTail | src/readpars.hpp:194 | exponent digits complete the literal as the mantissa times ten to the signed exponent |
| Numbers.ExponentAt | src/readpars.hpp:194 | a token `digits e [-] digits` is recognised as the mantissa times ten to the signed exponent |
| Numbers.ExponentParse | src/readpars.hpp:194 | `digits e [-] exponent` parses to the mantissa times ten to the signed exponent, or fails when that overflows |
| Numbers.IntegerRoundTrip | src/readpars.hpp:194 | every integer within the range of `double` written in decimal parses back to itself; any other fails |
| Literals.WholeAt | src/readpars.hpp:194 | the digits of the whole part become the mantissa and leave the recogniser in the whole part; with no whole part nothing changes |
| Literals.FractionAt | src/readpars.hpp:194 | the fraction's digits are appended to the mantissa and counted in its scale |
| Literals.MantissaAt | src/readpars.hpp:194 | every mantissa `[-] (digits [. [digits]] \| . digits)` is read into its sign, its digits and the count of fraction digits |
| Literals.ExponentEnd | src/readpars.hpp:194 | after the mantissa, the end of the token or an exponent `(e\|E) [-] digits` completes the literal with that exponent |
| Literals.ShapeAt | src/readpars.hpp:194 | a literal laid out at given positions of a token is recognised as the number it denotes |
| Literals.RejectedSigns | src/readpars.hpp:194 | a minus sign out of place, alone or doubled (`1-`, `-`, `--1`, `1e-`) fails to parse |
| Literals.RejectedDots | src/readpars.hpp:194 | a lone dot, a second dot, a dot in the exponent, or a dot with no digits before the exponent (`.`, `1.2.3`, `1e5.0`, `.e5`) fails to parse |
| Literals.RejectedWords | src/readpars.hpp:194 | an exponent mark without digits or without a mantissa, hexadecimal and the spelling of infinity (`1e`, `e5`, `0x10`, `inf`) fail to parse |
| Literals.ShapeParse | src/readpars.hpp:194 | every literal of the grammar, with or without sign, whole part, fraction, either exponent mark and exponent sign, parses to the number it denotes (its digits times ten to the exponent less the fraction length, negated after a minus), or fails when that overflows a `double` |
| Coercion.Accepts | src/readpars.hpp:197-214 | specification predicate of the three guards of `read<T>`; `Coercion.AcceptsByKind` states what each kind accepts |
| Coercion.Cast | src/readpars.hpp:221 | specification function of `static_cast<T>`; `Coercion.CastExact` states its result |
| Coercion.AcceptsByKind | src/readpars.hpp:197-214 | a double accepts every number; an int only whole numbers; a size_t only non-negative whole numbers; a bool exactly 0 and 1 |
| Coercion.CastExact | src/readpars.hpp:221 | the cast of an accepted number has the destination kind and the same numeric value |
| LineReads.NumberReadable | src/readpars.hpp:181-195 | `readnext` never refuses a number, so a token is coercible exactly when it parses and the kind accepts it |
| LineReads.ReadToken | src/readpars.hpp:181-231 | specification function of one `read<T>` on a given token; `LineReads.ReadTokenResult` states its meaning |
| LineReads.ReadTokenResult | src/readpars.hpp:181-231 | a token is stored exactly when it fits its kind and checker, and then as its number cast; "Could not read value" for a token `readnext` refuses; "Invalid value type" for a readable non-number or a number the kind refuses; otherwise the checker's complaint as a checker failure |
| LineReads.ReadOne | src/readpars.hpp:168-233 | a read stays within the line |
| LineReads.ReadOneResult | src/readpars.hpp:168-233 | a read consumes exactly the next token; the destination is assigned exactly when the token is coercible, even if the checker then fails; it succeeds exactly when the token is stored |
| LineReads.ReadValueSpec | src/readpars.hpp:55-71 | specification function of `readvalue<T>`; `LineReads.ReadValueResult` states its meaning and `Reader.ReadPars.ReadValue` is proved against it |
| LineReads.ReadValueResult | src/readpars.hpp:55-71 | `readvalue` succeeds exactly when one token is left, it fits, and no whitespace trails; a fitting token followed by anything, even whitespace alone, is "Too many values" with the value kept; a checker failure takes precedence |
| LineReads.Header | src/readpars.cpp:160-169 | specification function of the name part of `readline`; `LineReads.HeaderResult` states its meaning |
| LineReads.HeaderResult | src/readpars.cpp:160-169 | a data line's header succeeds exactly when the first token is readable and more follows it; the name is then that token; an unreadable name is "Could not read parameter name"; a readable name that ends the line is "No value" |
| LineReads.FirstToken | src/readpars.hpp:181 | the token a read extracts is the first remaining token, and none is extracted when none remains |
| LineReads.CollectStep | src/readpars.hpp:98-116 | a successful read in the loop advances the cursor, appends a value of the destination kind, and the loop carries on from there |
| LineReads.Collect | src/readpars.hpp:98-121 | the `readvalues` loop and its count check leave the cursor within the line, at or after where it started; `LineReads.CollectAgrees` reduces it to the loop over the tokens' reads |
| LineReads.CollectAgrees | src/readpars.hpp:98-121 | the loop of `readvalues` on the line equals the loop over the per-token reads of the remaining tokens |
| LineReads.Attempts | src/readpars.hpp:98-116 | one read result per remaining token |
| LineReads.AttemptsEach | src/readpars.hpp:98-116 | the k-th read result is the read of the k-th token |
| LineReads.Values | src/readpars.hpp:111 | the values of successful reads, one per read |
| LineReads.ValuesEach | src/readpars.hpp:111 | the k-th value is the k-th stored value |
| LineReads.AttemptsRefusals | src/readpars.hpp:181-231 | every refused read is an error |
| LineReads.AttemptsFit | src/readpars.hpp:181-231 | all reads succeed exactly when every token fits, and the values are then the tokens' casts, in order |
| LineReads.GatherPrefix | src/readpars.hpp:98-116 | the loop keeps at most `n` values, and they are the values of a prefix of successful reads |
| LineReads.GatherDone | src/readpars.hpp:98-121 | the loop completes exactly when `n` tokens are left, all stored, and no whitespace trails; it then yields all their values |
| LineReads.GatherTooMany | src/readpars.hpp:98-102 | after `n` stored values, anything left, a further token or only trailing whitespace, is "Too many values", before it is parsed |
| LineReads.GatherShort | src/readpars.hpp:98-121 | fewer than `n` fitting tokens end in "Too few values", or in "Could not read value" when whitespace trails |
| LineReads.GatherStop | src/readpars.hpp:108 | the first refused read ends the loop with that read's error |
| LineReads.ReadValuesSpec | src/readpars.hpp:74-132 | `readvalues<T>` leaves the cursor within the line, at or after where it started; `LineReads.ReadValuesResult` and `LineReads.ReadValuesErrors` state the rest of its meaning |
| LineReads.GatherFromEmpty | src/readpars.hpp:91-121 | from an emptied vector, the loop keeps the values of the first reads, at most `n`, and ends normally exactly when the `n` reads left all store and no whitespace trails |
| LineReads.ReadValuesResult | src/readpars.hpp:74-132 | `readvalues` keeps at most `n` values, all from successful reads of the first tokens; it succeeds exactly when exactly `n` tokens fit, no whitespace trails and the vector checker accepts; the vector is then the `n` values in order, and the vector checker's complaint is wrapped like a scalar one |
| LineReads.ReadValuesErrors | src/readpars.hpp:98-121 | "Too many values" when the first `n` tokens fit and anything follows them, a further token or only trailing whitespace; fewer fitting tokens end in "Too few values", or in "Could not read value" when whitespace trails; otherwise the first refused token's error is the result |
| Reader.ReadPars.constructor | src/readpars.cpp:17-29 | a new reader is closed, at line 0, with no line, no name and cleared flags |
| Reader.ReadPars.Open | src/readpars.cpp:67-85 | a missing file is the open error and leaves the reader closed; an empty file is the empty-file error; otherwise the reader is open, not at eof, at line 0; only an open that would succeed needs the counter at 0, as the `assert` at the end demands |
| Reader.ReadPars.Reset | src/readpars.cpp:88-98 | the flags, the line, the read position and the name are cleared, and nothing else changes |
| Reader.ReadPars.ReadNext | src/readpars.cpp:101-130 | the next token is extracted and accepted exactly when it is readable: non-empty and all letters, digits, dots and minus signs |
| Reader.ReadPars.ReadLine | src/readpars.cpp:133-171 | the next line of the file is taken and counted; `empty` and `comment` are set from it; such lines end with no error and no name; a data line's name, outcome and cursor are its header's |
| Reader.ReadPars.Close | src/readpars.cpp:174-179 | the reader is closed and at eof; the line state and the counter stay |
| Reader.ReadPars.ReadError | src/readpars.cpp:43-48 | always the invalid-parameter error for the current name, line and file, recognised as such from its text |
| Reader.ReadPars.Read | src/readpars.hpp:168-233 | the destination, outcome and cursor agree with `LineReads.ReadOne`, and the reader stays valid |
| Reader.ReadPars.ReadValue | src/readpars.hpp:55-71 | the outcome and cursor agree with `LineReads.ReadValueSpec`; the destination is overwritten once a value was cast, is left as it was otherwise, and keeps its kind; the reader stays valid |
| Reader.ReadPars.CollectValues | src/readpars.hpp:91-121 | the loop's values, outcome and cursor agree with `LineReads.Collect` from an empty vector, every value has the destination kind, and the reader stays valid |
| Reader.ReadPars.ReadValues | src/readpars.hpp:74-132 | the vector, outcome and cursor agree with `LineReads.ReadValuesSpec`, every element has the destination kind, and the reader stays valid, so the next `readline` can follow |
| Scenarios.NoNewline | tests/tests.cpp:30 | the line `name value` has no newline when the value has none |
| Scenarios.FirstWord | src/readpars.cpp:164 | the first token of `name value` is the name |
| Scenarios.DataLine | src/readpars.cpp:146-169 | a file whose one line is `name value` is that line, and its header is the name with the cursor just after it |
| Scenarios.UnknownParameter | src/MAIN.cpp:34-60 | opening a file whose only line is `name value` succeeds, reading that line succeeds, and calling `readerror` then gives the invalid-parameter error for that name on line 1 of that file |
| Scenarios.ReadEvery | src/MAIN.cpp:40-65 | the driver's loop, reading every data line with `readvalues`, ends; the reader stays valid and open, the counter grows by the lines read, and without an error the file is read to its end |
| Scenarios.UnknownMessage | src/readpars.cpp:40 | the invalid-parameter text for "unknown" on line 1 of "parameters.txt" |
| Scenarios.AbuseCase | tests/tests.cpp:27-43 | "parameters.txt" holding "unknown 1" gives "Invalid parameter: unknown in line 1 of file parameters.txt" |

The getters (`IsOpen`, `IsEof`, `IsEol`, `IsEmpty`, `IsComment`, `GetCount`, `GetFilename`, `GetLine`, `GetName`, src/readpars.hpp:44-52) are field reads. `IsEol` is `Cursor.AtEnd`, whose meaning `Cursor.EndOfLine` states. Each `error*` builder (src/readpars.cpp:32-40) is a function in `Messages` whose body is its format; `Messages.MessageKind` states that the formats cannot be confused.

## Left out

- The file system is a map from file names to contents, given to `Open`. `std::ifstream` buffering and I/O errors are not modelled. A name missing from the map is a file that cannot be opened.
- Open: opening a reader that is already open is excluded by a precondition. In C++ the second `open` fails and sets the stream's failbit, which this model does not track.
- Literals.ShapeParse: the converse, that every token the extraction accepts is the spelling of some `Shape`, is not stated. `Numbers.ParseNumberChars` bounds the characters of an accepted token instead, and `RejectedSigns`, `RejectedDots` and `RejectedWords` show tokens made of those characters that fail.
- Numbers.ParseNumber: `stream >> x` is modelled on exact decimals `[-] (digits [. [digits]] | . digits) [(e|E) [-] digits]`, read as a `real`, and fails when the value's magnitude reaches 2^1024 - 2^970, where rounding to nearest gives infinity. IEEE-754 rounding of the other values is not modelled: a number that is not a binary64 value, such as `0.1`, keeps its exact decimal value, and a value below the smallest double keeps its exact value rather than becoming zero (libstdc++ accepts it; some other standard libraries set failbit there). The model follows libstdc++, whose extraction gathers only a sign, digits, one dot and an exponent mark: with it, `inf`/`nan` spellings and hexadecimal floats such as `0x10` are left over, so they fail with "Invalid value type", and `isfinite` always holds of a parsed value. Other standard libraries read these spellings (the C++ standard's list of characters the extraction gathers includes `x`, `X` and `a`-`f`, and libc++ also gathers `p`, `P`, `i`, `I`, `n` and `N`). With such a library, `0x10` read into a `double` stores 16 and `inf` stores infinity, and only the integral kinds' `isfinite` guard (src/readpars.hpp:199) refuses infinity. The model does not capture that behaviour.
- Coercion.Cast: the C++ `static_cast` to `int` or `size_t` is undefined for out-of-range values. The model casts to unbounded integers, so a value is never out of range.
- The line counter is a `nat`; the wrap-around of `size_t` at 2^64 is not modelled.
- Checkers are optional total functions from a value (or a vector of values) to a string. `std::function` itself is not modelled.
- The `assert`s of `open`, `readline` and `readvalues` are method preconditions, not runtime results.
- ReadValues: returns a fresh vector rather than clearing a vector passed by reference. That earlier contents never survive holds by construction rather than being stated.
- A template destination is a `Value` tagged with its kind. The C++ type system's guarantee that the destination keeps its type is stated as `KindOf(value) == kind`.
- The library's example driver (src/MAIN.cpp) and command-line entry point (main.cpp) are not part of this model as programs. The test of an unknown parameter is replayed, and so is the driver's loop over the lines.
- Scenarios.ReadEvery: reads every data line with `readvalues` of one kind and count. The driver's dispatch on the parameter name, and the `readvalue` calls it makes, are not modelled.
