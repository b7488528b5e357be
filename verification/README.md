# rustversion-detect, modelled in Dafny

`rustversion-detect` tells a Rust crate which compiler is building it. Its
build script runs `rustc --version` and parses the banner line into a major,
minor and patch number and a release channel: stable, beta, a nightly with
its build date, or a development build. The library then exposes the result
as a `RustVersion`. Other code compares that version against stable
thresholds (`StableVersion`, such as `1.48` or `1.32.4`) and against nightly
dates (`Date`).

This project is a functional model of that core:

- `primitives.dfy` (`Primitives`): the unsigned integer widths the crate uses (`u8`, `u16`, `u32`) and `Option`.
- `lex.dfy` (`Lex`): the lexicographic order on number sequences. The comparisons are proved against it as an independent reference.
- `text.dfy` (`Text`): the string operations the crate borrows from Rust's standard library.
  - splitting on a character and joining back;
  - `trim` over Unicode White_Space;
  - `{}` and `{:0N}` formatting of unsigned numbers;
  - `str::parse` for unsigned types (decimal digits with an optional leading `+`, rejected when the value does not fit).
- `date.rs` → `date.dfy` (`Dates`): `Date`, its validating constructor, `is_since`, `is_before`, and `Display`.
- `version.rs` → `channel.dfy` (`Channels`) and `version.dfy` (`Versions`): `Channel`, `StableVersion`, `RustVersion`, the comparisons, the channel tests, `check_major_version`, and the test helper `to_spec`.
- `build/rustc.rs` → `rustc.dfy` (`Rustc`): `parse` and `parse_words`. The module also renders a banner in the shape rustc prints and proves that every such banner parses back to the version it was printed from.
- `parser_cases.dfy` (`ParserCases`): the shapes of output the banner round trip does not cover. These are beta tags, nightlies without a date, malformed dates and numbers, other tools, and a blank last line. Each is stated for every input of its shape.
- `build/build.rs` → `build.dfy` (`Build`): the detection loop around the parser.
  - It retries once through clippy's driver.
  - It rejects any major version other than 1.
  - It widens the parsed 16-bit numbers to the library's 32-bit fields.

The crate's constructors validate their arguments only when the compiler supports panics in `const fn`. The model takes the validating build. Each validated constructor has the check as its precondition: `Dates.Valid`, `Versions.SupportedMajor`. The order in which `Date::new` reports a violation is modelled separately, by `Dates.Violation`.

Behaviours of the code worth knowing:

- `parse` reads the last line of the output even when that line is empty or holds only White_Space. It does not look for the last non-blank line. Such a trailing line therefore makes the output unrecognized (`ParserCases.BlankLastLine`).
- The version word is split on every `-`, and only the first two pieces are read. For example, `1.2.3-dev-extra` reads as a development build (`ParserCases.ExtraDashPieces`).
- `is_before_nightly` is documented as the negation of `is_since_nightly`, but is not (see Findings). Here the code and its documentation disagree, and `Versions.IsBeforeNightly` models the code as written.
- The parser's `Version` keeps 16-bit numbers and the library's `RustVersion` keeps 32-bit numbers. `Build.ToRustVersion` is the widening between them.

## Model

| member | source | states |
|---|---|---|
| Dates.Violation | src/date.rs:35-43 | the validating constructor accepts exactly the year ≥ 1, month 1–12, day 1–31 ranges; the year is checked first, then the month, then the day |
| Dates.New | src/date.rs:35-43 | an accepted date keeps the year, month and day exactly as given |
| Dates.RejectedDates | src/date.rs:138-154 | 0-7-18 fails on the year, 2014-13-18 on the month, 2014-7-36 on the day of month |
| Dates.IsSince | src/date.rs:58-63 | a date is since `start` iff (year, month, day) is lexicographically ≥ start's |
| Dates.IsBefore | src/date.rs:79-81 | a date is before `end` iff it is not lexicographically ≥ end, and then it differs from end |
| Dates.IsSinceReflexive | src/date.rs:130-134 | every date is since itself and not before itself |
| Dates.IsSinceTotal | src/date.rs:15-16 | any two dates are ordered at least one way, and both ways exactly when they are equal (the derived total order) |
| Dates.IsSinceTransitive | src/date.rs:58-63 | since is transitive |
| Dates.IsBeforeStrict | src/date.rs:79-81 | before one way is since the other way with the dates distinct |
| Dates.DocumentedOrderings | src/date.rs:117-129 | the tests' three (before, after) pairs and the `is_since` doc example hold |
| Dates.Format | src/date.rs:102-110 | `Display` for `Date`: the year, month and day as `{:04}-{:02}-{:02}`; what the text means is stated by the next two rows and by `Rustc.ParseFormattedDate` |
| Dates.FormatFieldsRoundTrip | src/date.rs:102-110 | the displayed text splits on `-` into three all-digit fields of at least 4, 2 and 2 characters whose values are year, month and day |
| Dates.FormatLength | src/date.rs:104-108 | a year up to 9999 with month and day below 100 displays as exactly ten characters with dashes at positions 4 and 7 |
| Channels.ExactlyOneChannel | src/version.rs:267-303 | each channel test holds exactly for its variant, and exactly one holds |
| Versions.SupportedMajor | src/version.rs:310-316 | `check_major_version` with validation on: a major version is accepted iff it is 1; it is the precondition of every validated constructor |
| Versions.Minor | src/version.rs:24-31 | `minor` needs major 1 and gives a threshold with those numbers and no patch |
| Versions.Patch | src/version.rs:36-43 | `patch` needs major 1 and gives a threshold with those three numbers |
| Versions.Stable | src/version.rs:101-109 | `stable` needs major 1 and gives the stable-channel version with those numbers |
| Versions.ToVersion | src/version.rs:52-61 | `to_version` is the stable release with the threshold's numbers, patch 0 when absent, and that release meets the threshold |
| Versions.ToSpec | src/version.rs:329-334 | `to_spec` fixes all three numbers of the version, which the version meets |
| Versions.IsSince | src/version.rs:128-136 | a version is since a threshold iff its numbers, cut to the threshold's length, are lexicographically ≥ the threshold's; the channel is not consulted |
| Versions.IsBefore | src/version.rs:146-148 | a version is before a threshold iff that lexicographic comparison fails |
| Versions.SinceBeforeComplement | src/version.rs:114-117 | `is_since` and `is_before` always disagree |
| Versions.ChannelIgnored | src/version.rs:114-116 | changing only the channel changes neither stable comparison |
| Versions.MissingPatchMatchesAny | src/version.rs:15-18 | a threshold without a patch acts as patch 0 and is met by every patch of its minor version |
| Versions.IsSinceTransitive | src/version.rs:128-136 | being since another version's exact threshold carries over to every threshold that version meets |
| Versions.IsBeforeTransitive | src/version.rs:146-148 | before chains through exact thresholds |
| Versions.DocumentedOrderings | src/version.rs:323-341 | the test pair (1.18.0, 1.80.3) and the two `is_since` doc examples (src/version.rs:125-126) hold |
| Versions.OldestBeforeCurrent | src/version.rs:323-326 | 1.7.8 is before every major-1 version with minor ≥ 8, and each of them is since 1.7.8: the test pair whose second element is the detected compiler |
| Versions.IsSinceNightly | src/version.rs:162-168 | a nightly is since a date iff its build date is; stable and beta never are; development builds always are |
| Versions.IsBeforeNightly | src/version.rs:181-187 | a nightly is before a date iff its build date is; stable and beta never are; development builds always are |
| Versions.NightlyComplementOnlyForNightly | src/version.rs:162-187 | the two nightly comparisons are complements exactly when the channel is nightly |
| Versions.NightlyCutoffMonotone | src/version.rs:162-187 | moving the cutoff later can only turn since-nightly off and before-nightly on |
| Versions.NightlyExamples | src/date.rs:74-76 | a nightly of 2024-11-14 is before 2024-11-17 and not since 2024-12-07 |
| Versions.IsBeforeNightlyNotNegation | src/version.rs:173-187 | as written, a stable release is neither since nor before any nightly date, and a development build is both |
| Versions.IsBeforeNightlyAsDocumented | src/version.rs:173-178 | the documented behaviour: the exact negation of `is_since_nightly`, with stable and beta before every nightly and development builds after every nightly |
| Versions.ExactlyOneChannel | src/version.rs:194-217 | the version-level channel tests agree with the channel's, and exactly one holds |
| Versions.SpecText | src/version.rs:66-74 | `Display` for `StableVersion`: `major.minor`, then `.patch` only when a patch is given; read back by the next row and by `Rustc.SpecTextReadsAsToVersion` |
| Versions.SpecTextRoundTrip | src/version.rs:66-74 | the displayed threshold splits on `.` into shortest decimals whose values are major, minor and (when present) patch |
| Text.Split | build/rustc.rs:40 | `split` always gives at least one piece, even for empty text |
| Text.SplitPieces | build/rustc.rs:40 | `split` gives exactly one piece iff the separator is absent, and no piece contains the separator |
| Text.JoinSplit | build/rustc.rs:40 | joining the pieces of a split with the separator gives the text back |
| Text.SplitJoin | build/rustc.rs:52-56 | splitting a join of separator-free pieces gives the pieces back |
| Text.Trim | build/rustc.rs:40 | the trimmed text neither starts nor ends with White_Space |
| Text.TrimFramed | build/rustc.rs:40 | the trimmed text is a slice of the text with only White_Space before and after it, so `trim` removes exactly the leading and trailing White_Space |
| Text.TrimStart | build/rustc.rs:40 | `trim` removes exactly the leading White_Space characters |
| Text.TrimEnd | build/rustc.rs:40 | `trim` removes exactly the trailing White_Space characters |
| Text.Decimal | src/version.rs:68-70 | `{}` of an unsigned number is a non-empty digit string without a leading zero whose value is the number |
| Text.PadDecimalValue | src/date.rs:104-108 | `{:0N}` keeps the value of the number |
| Text.DecimalWidth | src/date.rs:104-108 | a number needs at most k digits iff it is below 10^k, so `{:04}` and `{:02}` pad exactly the numbers that fit |
| Text.ParseUnsigned | build/rustc.rs:57-59 | an accepted number is below the type's bound, its text is at least one digit after an optional leading `+` (so a lone `+` is rejected), and its value is the value of those digits; every digit string, with or without a leading `+`, whose value is below the bound is accepted with that value |
| Text.ParseDecimal | build/rustc.rs:57-59 | the shortest decimal of any number that fits parses back to that number |
| Text.ParsePadDecimal | build/rustc.rs:70-72 | a zero-padded decimal that fits parses back to its number |
| Text.ParseOverflow | build/rustc.rs:57-59 | a digit string whose value does not fit is rejected |
| Rustc.LastLine | build/rustc.rs:39 | the line read is free of line breaks, and a text with no line break before its terminating `\n` is read whole, less a final `\r` |
| Rustc.LastLineOfLaterText | build/rustc.rs:39 | text up to a line break before a non-empty rest never changes the last line, so with `Rustc.LastLine` the line read is fixed for every input |
| Rustc.ParseU16 | build/rustc.rs:57-59 | a version number is read as an unsigned decimal that fits 16 bits, with the value `Text.ParseUnsigned` gives |
| Rustc.ParseU8 | build/rustc.rs:71-72 | a month or day is read as an unsigned decimal that fits 8 bits, with the value `Text.ParseUnsigned` gives |
| Rustc.ParseNumbers | build/rustc.rs:56-59 | the numbers parse iff there are at least two dot pieces, both fit, and a third piece, when present, fits; a missing patch is 0 and pieces after the third are ignored |
| Rustc.ParseDate | build/rustc.rs:69-76 | a date parses iff it has exactly three dash pieces that fit a u16, a u8 and a u8, and then its fields are their values |
| Rustc.ParseNightly | build/rustc.rs:65-82 | after `-nightly`: no more words, or a lone `(…)`, is a development build; `(hash` then `date)` with a valid date is that nightly; any other shape fails |
| Rustc.ParseChannel | build/rustc.rs:61-84 | no suffix is stable, `dev` is development, a suffix starting `beta` is beta, `nightly` defers to the nightly grammar, anything else fails |
| Rustc.ParseWords | build/rustc.rs:51-92 | the words parse iff there is a first word whose part before its first `-` gives the numbers and whose suffix, with the later words, gives a channel; the version then has exactly those numbers and that channel |
| Rustc.Words | build/rustc.rs:39-40 | the words are the trimmed last line split at every single space, so there is always at least one, possibly empty, word |
| Rustc.Suffix | build/rustc.rs:52-54 | the channel suffix is the second `-` piece of the version word, absent when the word has no `-` (see `ParserCases.ExtraDashPieces`) |
| Rustc.Parse | build/rustc.rs:38-49 | success iff the first word of the trimmed last line is `rustc` and the rest parses; a clippy retry iff that word starts with `clippy` |
| Rustc.ParseReadsOnlyLastLine | build/rustc.rs:39 | text before the last line break never changes the result |
| Rustc.TrailingWordsIgnored | build/rustc.rs:61-64 | unless the suffix is `nightly`, words after the version word are ignored |
| Rustc.ParseFormattedDate | build/rustc.rs:68-77 | every date's `YYYY-MM-DD` text parses back to that date |
| Rustc.SpecTextReadsAsToVersion | build/rustc.rs:56-59 | a displayed threshold, read as version numbers, gives the numbers of its `to_version` |
| Rustc.WordsOfLine | build/rustc.rs:39-40 | a line of space-joined words, none empty at the ends or holding a space or line break, splits back into exactly those words |
| Rustc.NumbersTextRoundTrip | build/rustc.rs:56-59 | `MAJOR.MINOR.PATCH` in shortest decimals parses back to those numbers |
| Rustc.BannerRoundTrip | build/rustc.rs:38-92 | every banner rustc could print for a version, with or without commit words and after any earlier lines, parses back to that version |
| ParserCases.ReadsLine | build/rustc.rs:38-48 | a line `rustc` followed by clean words is read as whatever `parse_words` makes of those words |
| ParserCases.ExtraDashPieces | build/rustc.rs:52-54 | a version word is cut at every `-`: the numbers are the text before the first dash and the suffix the text up to the second, whatever follows |
| ParserCases.BetaTag | build/rustc.rs:64 | `NUMBERS-beta` followed by any dash-free tag, such as `1.60.0-beta.2`, reads as beta with those numbers |
| ParserCases.BareNightly | build/rustc.rs:81 | `NUMBERS-nightly` with no later word reads as a development build |
| ParserCases.UndatedNightly | build/rustc.rs:66-67 | `NUMBERS-nightly (hash)` with a single closed commit word reads as a development build |
| ParserCases.ClosedCommitWord | build/rustc.rs:66-67 | after `-nightly`, one word that opens and closes its parenthesis gives a development build |
| ParserCases.FourPartDate | build/rustc.rs:69-76 | a date word with four dash-separated parts is rejected, whatever the parts are |
| ParserCases.Overflow | build/rustc.rs:56-59 | a version whose major, minor or patch number is 65536 or more is unrecognized |
| ParserCases.MissingMinor | build/rustc.rs:58 | a version word made of one run of digits, with no minor number, is unrecognized |
| ParserCases.OtherTool | build/rustc.rs:42-46 | a line whose first word is not `rustc` asks for a clippy retry iff that word starts with `clippy`, and is otherwise unrecognized |
| ParserCases.BlankLastLine | build/rustc.rs:39 | output whose last line is empty or made only of White_Space (no line break) is unrecognized, whatever precedes it |
| Build.ToRustVersion | build/build.rs:102-105 | the library's version has the parsed numbers and channel |
| Build.Detect | build/build.rs:48-71 | a version is detected iff the first answer parses with major 1, or clippy answered first and the driver's answer parses with major 1; the detected version is the one parsed; unrecognized output, or a second non-answer, fails with UnexpectedOutput; a parsed major other than 1, from either answer, fails with UnsupportedMajor of that major |
| Build.NoRetryAfterDirectAnswer | build/build.rs:48-53 | the driver is consulted only after a clippy answer |

## Left out

- `RustVersion::CURRENT` and `RUST_VERSION` (src/version.rs:94, src/lib.rs:14-28) are the build script's output compiled back into the library. The model has no value for them. The test pair that uses `CURRENT` is stated for every supported compiler instead (`Versions.OldestBeforeCurrent`).
- `Display` for `RustVersion` (src/version.rs:231-243) is documented as unstable. Nothing in the core reads it back, so it is not modelled.
- `From<StableVersion> for RustVersion` (src/version.rs:221-226) only calls `to_version`, which is modelled as `Versions.ToVersion`.
- Unvalidated construction is not modelled. On compilers without `const` panics, `Date::new`, `check_major_version` and the constructors that call it accept anything. The model keeps only the validating behaviour, as preconditions.
- `maybe_const_fn!` and `date!` (src/macros.rs, src/date.rs:89-99) are macros. They only choose whether a function is `const` and build a `Date`, so they have no behaviour to model.
- Process handling in build/build.rs is outside the model:
  - running the commands, the `RUSTC` and `RUSTC_WRAPPER` environment variables, decoding the output as UTF-8, error messages and exits;
  - the `cargo:rustc-cfg` lines chosen by minor version;
  - the host-OS check;
  - writing `version.expr`.
  
  `Build.Detect` takes the two command outputs as parameters.
- benchcompile/ contains benchmark build scripts, outside the core.
- Rustc.LastLine: also strips a `\r` that ends the text with no `\n` after it, as older versions of `lines()` did; newer versions keep it. `trim` removes that character either way, so no parse result differs.
- Rustc.ParseWords: its contract does not separately state that trailing dot pieces after the patch, or trailing dash pieces after the suffix, are ignored. Those facts are stated by `Rustc.ParseNumbers` and `ParserCases.ExtraDashPieces`.
- The crate has no parser for `StableVersion` text. Only its `Display` is modelled, and its read-back is proved through the version parser (`Rustc.SpecTextReadsAsToVersion`).

## Findings

| source | as written | input that shows it | evidently intended | confidence | as-written member | corrected member |
|---|---|---|---|---|---|---|
| src/version.rs:181-187 | `is_before_nightly` returns `false` for stable and beta, and `true` for development builds. These are the same values as `is_since_nightly`. | `RustVersion::stable(1, 80, 0).is_before_nightly(d)` is `false` for every date `d`. So is `is_since_nightly`, although the doc comment (lines 175-178) and the inline comment on line 184 say stable is "before every nightly" and the result is "the negation of `is_since_nightly`". | Stable and beta give `true` and development builds give `false`, so that the function is the exact negation of `is_since_nightly` | medium: the doc comment and the inline comment both say so, but the code may have been meant to treat non-nightlies as matching neither bound; not executed | Versions.IsBeforeNightlyNotNegation | Versions.IsBeforeNightlyAsDocumented |

No other part of the model calls `is_before_nightly`. `Versions.IsBeforeNightly` stays as written, so that the model matches the code the crate ships.
