# The `lab` command-line interpreter, in Dafny

This project models the command interpreter of the `lab` crate
(`lab/src/main.rs`). The program reads its arguments as a list of text tokens.

- `parse_command` turns the tokens into a `Command`: `Add` with a list of
  `i32`, `List` or `Quit`. On failure it returns an error string.
- `parse_args` parses every token as an `i32`. Its loop stops at the first
  token that is not one.
- `main` adds the parsed numbers up as an `i32`.

The Dafny model has four modules:

- `Results` (`results.dfy`): Rust's `Option` and `Result`.
- `I32` (`int32.dfy`): the `i32` type as a `newtype` over the range
  [-2^31, 2^31-1].
  - `ParseI32` follows the radix-10 `FromStr` of Rust's core library. An
    empty string fails, and so does a lone `+` or `-`. One leading sign is
    stripped. The remaining characters go through a digit loop that
    multiplies by ten and adds or subtracts each digit, with checked
    arithmetic.
  - `FormatI32` is the decimal `Display` that prints the total.
  - Lemmas relate the digit loop to a declarative reading: an optional
    sign, at least one ASCII digit, and a value in range.
- `Ascii` (`ascii.dfy`): `to_lowercase` restricted to ASCII letters.
- `Lab` (`lab.dfy`): the `Command` datatype, `ParseCommand`, the
  `collect::<Result<Vec<_>, _>>` step as `CollectNumbers`, `parse_args` as
  the method `ParseArgs` with its loop, and the checked sum `Total`.
  - The crate's two tests are the methods `ParsesNumbers` and
    `RejectsBadInput`. Each returns the result of `ParseArgs` on the test's
    input and promises what the Rust test asserts about it.

## Model

| member | source | states |
|---|---|---|
| `I32.AccumulateMeaning` | lab/src/main.rs:42 | The checked digit loop of `parse::<i32>` succeeds exactly when the digits read so far plus the rest are all ASCII digits and their signed value fits in `i32`. It then returns that value. |
| `I32.ParseI32Meaning` | lab/src/main.rs:24 | `parse::<i32>` accepts exactly an optional `+`/`-` followed by one or more ASCII digits, nothing else, whose value is in [-2^31, 2^31-1]. The result is that value. |
| `I32.ParseI32Rejects` | lab/src/main.rs:84-86 | `""`, `"-"`, `"+"`, `"x"`, `"nope"`, `" 1"`, `"1 "` and `"+-1"` do not parse. |
| `I32.ParseI32RejectsOverflow` | lab/src/main.rs:42 | `"2147483648"` and `"-2147483649"` overflow and do not parse. |
| `I32.ParseI32Accepts` | lab/src/main.rs:77-79 | `"10"` gives 10 and `"-3"` gives -3. A `+` sign, leading zeros and `"-0"` are accepted. |
| `I32.NatToDigitsMeaning` | lab/src/main.rs:67 | The decimal spelling of a natural number is a non-empty string of digits that denotes that number. It has no leading zero, and zero is spelled `"0"`. |
| `I32.FormatParseRoundTrip` | lab/src/main.rs:67 | Parsing the printed form of any `i32` gives the same value back. |
| `Ascii.ToLowercase` | lab/src/main.rs:15 | Lower-casing keeps the length and maps every character on its own: `A`..`Z` become `a`..`z`, and any other character is kept. |
| `Ascii.LowercaseMatchesWord` | lab/src/main.rs:15-16 | A token lower-cases to a lower-case word such as `add` exactly when it spells that word letter by letter, each letter in either case. |
| `Lab.CollectNumbers` | lab/src/main.rs:22-25 | The operands collect to `Ok` exactly when every one parses as `i32`. The values are then the parses, one per token, in order. Otherwise the error is `bad number: ` followed by the leftmost failing token as written. |
| `Lab.ParseCommand` | lab/src/main.rs:10-33 | A command is accepted exactly when there is a first token and its lower-cased form is `list` or `quit`, or it is `add` followed by at least one token that all parse as `i32`. An `Add` carries one value per operand, and at least one. |
| `Lab.ParseCommandEmpty` | lab/src/main.rs:11-13 | No tokens gives `Err("no input provided")`. |
| `Lab.ParseCommandVerbCaseInsensitive` | lab/src/main.rs:15-16 | Two first tokens with the same lower-cased form give the same result for any following tokens. |
| `Lab.ParseCommandSelects` | lab/src/main.rs:16-30 | For non-empty input, the result is `List` iff the lower-cased verb is `list`, and `Quit` iff it is `quit`. It is an `Add` iff the verb is `add` with at least one operand and all operands parse. |
| `Lab.ParseCommandAddAlone` | lab/src/main.rs:18-20 | A verb that lower-cases to `add` with no operands gives `Err("add needs at least one number")`. |
| `Lab.ParseCommandAddValues` | lab/src/main.rs:22-27 | When every operand of `add` parses, the result is `Add(values)`. `values` has one entry per operand, and entry `i` is the parse of operand `i`. |
| `Lab.ParseCommandAddFirstBad` | lab/src/main.rs:24-25 | When operand `k` is the leftmost one that does not parse, the result is `Err("bad number: " + raw[k+1])`, with the token as written. |
| `Lab.ParseCommandIgnoresTrailing` | lab/src/main.rs:29-30 | `list` and `quit`, in any case, give the same result whatever tokens follow them. |
| `Lab.ParseCommandUnknown` | lab/src/main.rs:31 | Any other verb gives `Err("unknown command: " + v)`, where `v` is the verb lower-cased. |
| `Lab.ParseCommandExamplesAdd` | lab/src/main.rs:22-27 | `["add","2","3"]` and `["ADD","2","3"]` both give `Add([2,3])`. |
| `Lab.ParseCommandExampleAddAlone` | lab/src/main.rs:18-20 | `["add"]` gives `Err("add needs at least one number")`. |
| `Lab.ParseCommandExampleBadNumber` | lab/src/main.rs:24-25 | `["add","4","x"]` gives `Err("bad number: x")`. |
| `Lab.ParseCommandExampleUnknown` | lab/src/main.rs:31 | `["dance"]` gives `Err("unknown command: dance")`. |
| `Lab.ParseCommandExampleQuit` | lab/src/main.rs:30 | `["Quit","now"]` gives `Quit`. |
| `Lab.ParseArgs` | lab/src/main.rs:36-50 | The result is `Ok` exactly when every argument parses as `i32`, with the same length and order as the input; empty input gives an empty vector. Otherwise the error is `Could not parse '<arg>' as an integer` for the leftmost bad argument. A non-empty `Ok` result equals the values of `Add` that `parse_command` gives for `add` followed by the same tokens. |
| `Lab.ParsesNumbers` | lab/src/main.rs:74-80 | `parse_args` on `["10","-3"]` gives `Ok([10,-3])`. |
| `Lab.RejectsBadInput` | lab/src/main.rs:82-87 | `parse_args` on `["nope"]` is an error whose message holds `nope`, at offsets 17 to 21. |
| `Lab.SumFromMeaning` | lab/src/main.rs:66 | Summing from a running total is defined exactly when every later running total fits in `i32`. It then equals the mathematical sum. |
| `Lab.TotalMeaning` | lab/src/main.rs:66 | `numbers.iter().sum()` is defined, with no overflow, exactly when every running total fits in `i32`. It then equals the mathematical sum of the numbers. |
| `Lab.TotalExamples` | lab/src/main.rs:66 | The total of `[10,-3]` is 7 and of `[]` is 0. `[2^31-1, 1]` overflows. |

## Left out

- `main`'s I/O is not modelled (lab/src/main.rs:52-63, 67): reading `env::args`, writing with `eprintln!`/`println!`, and `std::process::exit(1)`. Only the parse and the sum are modelled, and the printed total only through `FormatI32`.
- `Lab.Total` models overflow as `None`, the debug-build panic of `iter().sum()`. A release build wraps around instead. The code promises neither, so wrap-around is not modelled.
- `Ascii.ToLowercase` handles only ASCII. Rust's `to_lowercase` follows full Unicode case mapping, which is library behaviour not visible here. This does not change which commands are recognised, because no non-ASCII character lower-cases to a letter of `add`, `list` or `quit`. It can change the verb quoted in an `unknown command` error when the verb has non-ASCII capitals.
- `I32.ParseI32` returns `None` for every failure. It does not keep Rust's `ParseIntError` kind (empty, invalid digit, overflow), because both callers discard it (lab/src/main.rs:24, 44).
- Rust strings are UTF-8 bytes, and `from_str` scans bytes. Here tokens are sequences of characters. The accept/reject outcome is the same, because a non-ASCII character is never a digit.
- Idempotence of `parse_command` (same input, same result) holds by construction, because `ParseCommand` is a function. No lemma states it.
- `src/guess_game.rs` is not part of this model. It is an interactive loop over standard input and a random secret.
