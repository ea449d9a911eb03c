# Typed action inputs and outputs, in Dafny

This project models the input/output layer of the `beta` GitHub Actions helper
crate (`actions/core`). An action receives its parameters as environment
variables named `INPUT_<NAME>` and reports results by printing
`::set-output name=<name>::<value>` lines. The crate turns those strings into
typed values and back:

- **Scalar parsers** (`FromInput`) for `String`, `bool`, `i32`, `u32`, `i64` and `u64`.
  There is also the `Option<T>` adapter, which reads the empty string as `None`.
- **Scalar formatters** (`ToOutput`): decimal digits, `true`/`false`, and `""` for `None`.
- **The environment resolver** (`FromInputEnv`). It derives the key, reads the
  variable and applies the presence policy. A required input that is absent or
  blank is `MissingRequired`. An optional input that is absent or blank is `None`.
- **The crate API**: `input`, `output` and `repository`.

Modules:

- `Wrappers` (wrappers.dfy): `Option` and `Result`.
- `Strings` (strings.dfy): case mapping, `char::is_whitespace`, `trim`, `replace`, and `split`/join.
- `Decimal` (decimal.dfy): Rust's decimal integer `parse` and `to_string`.
  Integers are unbounded. A type is given by its range, and it is signed when its minimum is negative.
- `Io` (io.dfy): models `actions/core/src/io.rs`.
- `Beta` (lib.dfy): models `actions/core/src/lib.rs`.

io.rs only computes values, so `Io` is written as functions and lemmas. In
lib.rs, `output` prints to standard output. It is modelled as the method
`Stdout.Output`, which appends one line to the `lines` field of a `Stdout`
object. `input` and `repository` only read the environment, so they are functions.

Other modelling choices:

- **Environment.** The process environment is a `map<string, EnvVal>`. A key
  missing from the map reads as `NotPresent`.
- **Resolver.** The two `FromInputEnv` impls (io.rs:149-164 and io.rs:167-182)
  are one function, `Io.Resolve`, with a `required` flag. It returns
  `Result<Option<Scalar>, IoError>`, and in required mode a value is always in `Some`.
  Its test `value.trim().is_empty()` is written as `Blank(value)`, meaning every
  character is whitespace. `Strings.TrimEmptyIffBlank` proves the two tests agree,
  and the resolver lemmas are stated with `Trim`.
- **Types.** The `RequiredInput` marker trait becomes the `ScalarKind` enumeration.
- **Integer parsing.** `str::parse` on integers (io.rs:44-66) comes from Rust's
  core library, which is not part of this model's source. It is modelled from
  that library's documentation and its implementation (`from_str_radix` with radix 10):
  - an optional `+`, and a `-` only for signed types;
  - a lone sign is `InvalidDigit`, and the empty string is `Empty`;
  - the error message is that error's `Display` text, taken from the implementation;
  - the digits are read left to right, and each character is checked to be a digit
    before the multiply-and-add is checked for overflow. The first step that fails
    decides the error, so `99x` for a type whose maximum is 50 is `PosOverflow`.
    This order is an implementation detail; the documentation does not fix it.
- **Key prefix.** The key prefix is the code's literal `INPUT_`.
- **Trimming.** `trim` is exact. It removes every character with Unicode's White_Space property, as `char::is_whitespace` does.
- **Error messages.** The messages inside the errors are modelled: the bool parse message, the `ParseIntError` texts, and the bare name for a value that is not Unicode.

## Model

| member | source | states |
|---|---|---|
| `Io.ParseTextIsIdentity` | actions/core/src/io.rs:28-32 | `String::from_input` succeeds on every string and returns it unchanged; its `to_output` is the string itself |
| `Strings.Lower` | actions/core/src/io.rs:36 | `to_lowercase` keeps the length and maps each character on its own; only ASCII letters are mapped |
| `Io.ParseBool` | actions/core/src/io.rs:34-42 | the empty string is `false`; an accepted spelling has at most five characters; a rejected string `s` gives `ParseError("Cannot parse '<s>' as bool")` |
| `Io.ParseBoolSpellings` | actions/core/src/io.rs:34-42 | `bool::from_input` is `Ok(true)` exactly for `true`/`1`/`yes` and `Ok(false)` exactly for `false`/`0`/`no`/empty, in any mix of ASCII case; every other string is a `ParseError` |
| `Io.ParseBoolIgnoresCase` | actions/core/src/io.rs:36 | for ASCII input, upper-casing changes neither whether a boolean parses nor its value |
| `Io.ParseBoolExamples` | actions/core/src/io.rs:34-42 | `TRUE`, `True`, `1`, `yes` give true; `FALSE`, `0`, `no`, `""` give false; `maybe` is an error |
| `Decimal.ScanPositive` | actions/core/src/io.rs:46 | the digit loop of a non-negative number never returns a value outside `acc..=max` and fails only with `InvalidDigit` or `PosOverflow` |
| `Decimal.ScanNegative` | actions/core/src/io.rs:46 | the digit loop after `-` never returns a value outside `min..=acc` and fails only with `InvalidDigit` or `NegOverflow` |
| `Decimal.ParseInt` | actions/core/src/io.rs:44-66 | an integer parse result lies in the target type's range; the error is `Empty` exactly for the empty string |
| `Decimal.ScanPositiveReads` | actions/core/src/io.rs:46 | the positive digit loop succeeds exactly on all-digit strings whose value fits, returns that value, and fails on all-digit strings only by `PosOverflow` |
| `Decimal.ScanNegativeReads` | actions/core/src/io.rs:46 | the same after `-`: success exactly when the negated value is at least `min`, failure on all-digit strings only by `NegOverflow` |
| `Decimal.ParseIntMeansReading` | actions/core/src/io.rs:44-66 | integer parsing succeeds exactly on decimal literals (optional `+`, `-` only for signed types) whose value is in range, and returns that value |
| `Decimal.NatToDecimal` | actions/core/src/io.rs:101-123 | the text of a non-negative integer is a non-empty digit string denoting it, with no leading zero |
| `Decimal.FormatIntReads` | actions/core/src/io.rs:101-123 | the `to_string` text of every integer reads back as that integer for signed types, and for unsigned types when it is not negative |
| `Decimal.ParseFormatInt` | actions/core/src/io.rs:44-66 | integer round trip: the text of an in-range integer parses back to it; above the range it is `PosOverflow`, below a signed range `NegOverflow`, negative for an unsigned type `InvalidDigit` |
| `Io.ParseInteger` | actions/core/src/io.rs:44-66 | `from_input` of an integer type returns only values in that type's range; every failure is a `ParseError`, and the empty string gives `cannot parse integer from empty string` |
| `Io.Parse` | actions/core/src/io.rs:28-66 | every successful scalar parse returns a value of the requested type (integers within range); every failure is a `ParseError`; `String` never fails |
| `Io.ParseIntegerMeaning` | actions/core/src/io.rs:44-66 | each integer type accepts exactly the decimal literals whose value lies in its range, with that value |
| `Io.ParseOutOfRange` | actions/core/src/io.rs:44-66 | the decimal text of an integer outside a type's range is a `ParseError` for that type |
| `Io.Format` | actions/core/src/io.rs:83-123 | a string is output unchanged; a boolean is `true` or `false`; an integer is its `to_string` text; a boolean or integer text is never empty and does not start with whitespace |
| `Io.FormatOptional` | actions/core/src/io.rs:125-132 | `None` is `""`; the output is empty exactly for `None` and for `Some("")` |
| `Decimal.FormatInt` | actions/core/src/io.rs:101-123 | the text of a non-negative integer is a digit string denoting it; that of a negative one is `-` followed by a digit string denoting its magnitude; there is no leading zero |
| `Io.ParseFormat` | actions/core/src/io.rs:83-123 | formatting then parsing gives back every value of every scalar type (`true`/`false`, decimal digits, the text itself) |
| `Io.ParseNormalises` | actions/core/src/io.rs:34-42 | after one parse, format-then-parse is stable: `parse(format(parse(s))) == parse(s)` for every accepted `s` (so `1`/`yes`/`no` normalise to `true`/`false`) |
| `Io.ParseOptional` | actions/core/src/io.rs:68-76 | `Ok(None)` exactly for the empty string; a `Some` value has the requested type; every failure is a `ParseError` |
| `Io.ParseOptionalAdapts` | actions/core/src/io.rs:68-76 | `Option<T>::from_input("")` is `Ok(None)`; on a non-empty string it is `T`'s value in `Some`, or `T`'s error unchanged |
| `Io.ParseFormatOptional` | actions/core/src/io.rs:125-132 | `None` formats to `""` and `Some(v)` like `v`; formatting then parsing an optional value gives it back except `Some("")`, which comes back as `None` |
| `Io.EmptyBoolAndOptionalBool` | actions/core/src/io.rs:68-76 | the empty string is `false` to `bool` but `None` to `Option<bool>` |
| `Strings.Upper` | actions/core/src/io.rs:151 | `to_uppercase` keeps the length and maps each character on its own; only ASCII letters are mapped |
| `Strings.Replace` | actions/core/src/io.rs:151 | `replace('-', "_")` keeps the length, turns each `-` into `_` and leaves every other character |
| `Io.EnvKey` | actions/core/src/io.rs:151 | the key is `INPUT_` followed, character by character, by the upper-cased name with `-` turned into `_` |
| `Io.EnvKeyCollisions` | actions/core/src/io.rs:169 | two ASCII names share a key exactly when they agree up to ASCII case and `-` versus `_` |
| `Io.EnvKeyOfPullNumber` | actions/core/src/io.rs:151 | the input `pull-number` is read from `INPUT_PULL_NUMBER` |
| `Io.EnvKeyOfToken` | actions/core/src/io.rs:151 | the input `token` is read from `INPUT_TOKEN` |
| `Io.EnvKeyCollisionExample` | actions/core/src/io.rs:169 | `PULL_NUMBER` and `pull-number` read the same variable |
| `Io.Lookup` | actions/core/src/io.rs:152 | `env::var`: a key missing from the environment is `NotPresent`, and a present key gives its entry |
| `Io.WrapSome` | actions/core/src/io.rs:179 | `.map(Some)`: success exactly when the argument succeeds, with its value in `Some`, and its error unchanged |
| `Io.Resolve` | actions/core/src/io.rs:149-182 | the required form never returns `Ok(None)`, the optional form never returns `MissingRequired`, a returned value has the requested type, and `MissingRequired` carries the input's name |
| `Io.ResolvePolicy` | actions/core/src/io.rs:149-182 | absent or blank after trimming gives `MissingRequired(name)` when required and `Ok(None)` when optional; not Unicode gives `ParseError(name)`; otherwise the parser's value in `Some` or its error |
| `Io.ResolveParsesOnlyNonBlank` | actions/core/src/io.rs:158-162 | whenever the resolver returns a value, it is the parse of the untrimmed, non-blank variable |
| `Io.RequiredAndOptionalAgree` | actions/core/src/io.rs:149-182 | the required form gives `MissingRequired(name)` exactly where the optional form gives `None`, and otherwise the two agree |
| `Io.OptionalResolveIsAdapter` | actions/core/src/io.rs:176-180 | for a present, non-blank value the optional form equals the `Option<T>` adapter applied to it |
| `Io.BlankRequiredBoolIsMissing` | actions/core/src/io.rs:158-159 | an empty required boolean is `MissingRequired`, although `bool` alone reads `""` as `false` |
| `Io.ResolveScenario` | actions/core/src/io.rs:149-182 | with `INPUT_NUMBER=42`, `INPUT_BODY` empty and `INPUT_TOKEN` unset: `number` is 42, `body` and `token` are missing when required, and `token` is `None` when optional |
| `Strings.IsWhitespace` | actions/core/src/io.rs:158 | the `char::is_whitespace` test used by `trim`; among ASCII characters it holds exactly for space and tab through carriage return |
| `Strings.Trim` | actions/core/src/io.rs:158 | `trim()` is `s` without exactly its leading and trailing whitespace: a contiguous middle part, with all-whitespace text before and after it, that neither starts nor ends with whitespace |
| `Strings.TrimEmptyIffBlank` | actions/core/src/io.rs:158 | `trim()` leaves nothing exactly when every character is whitespace |
| `Beta.Input` | actions/core/src/lib.rs:20-22 | `input` has the resolver's value, or the resolver's error wrapped as `Error::IoError`; it never yields `EnvVarError` |
| `Beta.InputMissing` | actions/core/src/lib.rs:15-19 | for a missing input, `input::<String>` is an error and `input::<Option<String>>` is `Ok(None)` |
| `Beta.Stdout.Output` | actions/core/src/lib.rs:25-27 | `output` appends exactly one line, `::set-output name=` + name + `::` + the formatted value, and changes nothing else |
| `Beta.ToOutput` | actions/core/src/lib.rs:25-26 | the formatted value is empty exactly for `""`, `None` and `Some("")` |
| `Beta.SetOutputLine` | actions/core/src/lib.rs:26 | the line is `::set-output name=`, the name and `::`, followed by exactly the value |
| `Beta.SetOutputLineDecodes` | actions/core/src/lib.rs:26 | if names have no `:`, the printed line determines both the name and the value |
| `Beta.SetOutputLineIsOneLine` | actions/core/src/lib.rs:26 | the printed text is a single line exactly when neither name nor value contains a line break |
| `Beta.OutputOfNone` | actions/core/src/lib.rs:26 | for `None` the line ends in `::` |
| `Beta.ReportCommentUrl` | actions/core/src/lib.rs:25-27 | reporting `comment-url` = `https://x/1` prints exactly `::set-output name=comment-url::https://x/1` |
| `Beta.CurrentRepository` | actions/core/src/lib.rs:33-45 | an unset or non-Unicode `GITHUB_REPOSITORY` is `EnvVarError`; otherwise owner and name are the first two `/`-free segments of the slug, followed by its end or another `/` |
| `Strings.Split` | actions/core/src/lib.rs:37 | `split('/')` gives at least one segment, and no segment contains `/` |
| `Strings.JoinSplit` | actions/core/src/lib.rs:37 | `split('/')` loses nothing: joining the segments with `/` gives the slug back |
| `Strings.SplitLeadingSegments` | actions/core/src/lib.rs:36-39 | the first two segments and the `/` between them are a prefix of the slug, followed by its end or another `/` |
| `Beta.LeadingSegmentsUnique` | actions/core/src/lib.rs:36-39 | only one owner/name pair is the first two segments of a slug |
| `Beta.RepositoryRoundTrip` | actions/core/src/lib.rs:33-45 | a slug `owner/name`, optionally followed by more `/` segments, gives back exactly that owner and name |
| `Beta.RepositoryDropsFurtherSegments` | actions/core/src/lib.rs:36-39 | `octo/hello/extra` gives owner `octo` and name `hello` |

## Left out

- Strings.Lower: `to_lowercase` (io.rs:36) is modelled on ASCII letters only. Other characters are left unchanged, and no character maps to several.
- Strings.Upper: `to_uppercase` (io.rs:151, 169) is modelled on ASCII letters only. Other characters are left unchanged, so `ß` does not become `SS`.
- Io.ParseBoolIgnoresCase: stated for ASCII input only. With Rust's full case mapping `yeſ` is an error, but its upper-case form `YES` parses as `true`.
- Io.EnvKeyCollisions: stated for ASCII names only. With Rust's full upper-casing, `é` and `É` share the key `INPUT_É`, and so do `ß` and `ss`.
- The process environment: `env::var` is a lookup in a map, and the `OsString` inside `VarError::NotUnicode` is dropped.
- Standard output: `println!` appends a string to the `lines` sequence. A failed write, which panics in Rust, is not modelled.
- The `Display` impls of `IoError` (io.rs:12-19) and of `Error` (lib.rs:7-13) are not modelled.
- Nested optional types such as `Option<Option<T>>` are not modelled. The resolver's optional form takes a scalar kind.
- Beta.CurrentRepository: requires a `/` in a present slug. The source panics at the `unwrap` on lib.rs:38 when there is none.
- Io.Resolve: in required mode the value comes back inside `Some`, where the source returns a bare `T`.
- actions/post-comment/src/main.rs: not modelled. It is the asynchronous entry point and HTTP client calls, with no logic beyond calling `input`, `repository` and `output`.
