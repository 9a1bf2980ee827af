# guess_game, modelled in Dafny

`guess_game` is the number-guessing game of this repository. It prints a
banner and draws a secret between 1 and 100. Then it loops:

- it prompts and reads one line from standard input;
- it trims the line and parses it as a `u32`, silently skipping the line when
  that fails;
- it echoes the guess and prints "Too small", "Too big" or the success
  message;
- it leaves the loop on the success message.

A failed read panics through `.expect`.

The model has three modules:

- `Decimal` (`decimal.dfy`) covers the text handling the loop relies on.
  `Trim` is `str::trim`, over the Unicode White_Space characters that
  `char::is_whitespace` recognises. `FromStr` is `u32::from_str`: an optional
  `+`, then one or more ASCII digits, with checked multiply-and-add overflow
  detection. `ParseU32` is their composition, and `Format` is the `{}`
  rendering used for the echo.
- `GuessGame` (`guess_game.dfy`) covers the session. The random draw is a
  parameter `secret`. Standard input is a finite script of `Read`s: a line, or
  a failed read. Standard output is a list of `Event`s: one per printed line,
  by category. `RunSession` is the loop itself, a `while` loop that appends to
  the output as the program prints. It is proved equal to `Session`, a
  recursive definition with one step per pass through the loop body. Each
  read is first classified (`Classify`) as a guess, a line to skip, or a
  failure. The loop then reacts only to that classification.
- `SessionFacts` (`session_facts.dfy`) holds the properties of the session,
  proved by induction over the reads.

A session over a finite script ends in one of three ways:

- `Solved(at)`: the line read at `at` holds the secret;
- `Panicked(at)`: the read at `at` failed;
- `Exhausted`: the script ran out.

`Exhausted` exists only because the script is finite. The program never ends
on its own at end of input. There, `read_line` succeeds with an empty string,
which does not parse, so the loop prompts again forever. `EndOfInputSpins`
proves this: any number of end-of-input reads after an unsolved script only
add prompts. One could expect end of input to end the game with an error, but
the code does not do that, and the model follows the code.

## Model

| member | source | states |
|---|---|---|
| Decimal.Trim | src/guess_game/mod.rs:15 | the trimmed line is no longer than the line, and neither starts nor ends with a whitespace character |
| Decimal.TrimSplit | src/guess_game/mod.rs:15 | every line is leading whitespace, then its trimmed form, then trailing whitespace |
| Decimal.TrimUnwraps | src/guess_game/mod.rs:15 | trimming text padded with whitespace on both sides gives back the text, when the text itself has no padding |
| Decimal.TrimIdempotent | src/guess_game/mod.rs:15 | trimming twice is trimming once |
| Decimal.TrimIgnoresPadding | src/guess_game/mod.rs:15 | adding whitespace around a line does not change its trimmed form |
| Decimal.Accumulate | src/guess_game/mod.rs:15 | the checked digit-by-digit accumulation succeeds exactly when every character is a digit and the value stays within `u32::MAX`, and then gives the value of the numeral |
| Decimal.FromStr | src/guess_game/mod.rs:15 | `parse::<u32>` accepts exactly an optional `+` followed by a non-empty run of digits whose value is at most `u32::MAX`, and returns that value |
| Decimal.ParseU32 | src/guess_game/mod.rs:15 | a line yields a guess exactly when its trimmed form is such a literal, and the guess is that literal's value |
| Decimal.ParseIgnoresPadding | src/guess_game/mod.rs:15 | the parse ignores whitespace around the line, so parsing a line and parsing its trimmed form agree |
| Decimal.BlankRejected | src/guess_game/mod.rs:14-17 | a blank line, including the empty line read at end of input, yields no guess |
| Decimal.StrayCharRejected | src/guess_game/mod.rs:15 | a literal with any character other than a digit or a leading `+` yields no guess |
| Decimal.Format | src/guess_game/mod.rs:20 | the echoed form of a number is a non-empty run of digits with no leading zero unless the number is 0 |
| Decimal.ValueOfFormat | src/guess_game/mod.rs:20 | the echoed digits have exactly the value of the number echoed |
| Decimal.ParseFormatted | src/guess_game/mod.rs:15-20 | round trip: a line holding the echoed form of any `u32`, however padded, parses back to that number |
| Decimal.SignAndZerosAccepted | src/guess_game/mod.rs:15 | a leading `+` and leading zeros do not stop a numeral from parsing to its value |
| Decimal.AcceptsTerminatedGuess | src/guess_game/mod.rs:14-15 | the line "42" with its newline parses to 42 |
| Decimal.RejectsFraction | src/guess_game/mod.rs:15-17 | "12.5" with its newline yields no guess |
| Decimal.RejectsNegative | src/guess_game/mod.rs:15-17 | "-3" with its newline yields no guess, since a `u32` has no sign |
| GuessGame.Verdict | src/guess_game/mod.rs:22-28 | the verdict is "too small" exactly when the guess is below the secret, "too big" exactly when above, and the success message exactly when equal |
| GuessGame.Resume | src/guess_game/mod.rs:10-30 | the rest of the session keeps the output printed so far from shrinking and keeps its first event, and reads from the current position up to at most the end of the script |
| GuessGame.Session | src/guess_game/mod.rs:7-31 | the output starts with the banner, and the session reads at most the whole script |
| GuessGame.RunSession | src/guess_game/mod.rs:7-31 | the loop prints exactly the output of `Session` and ends exactly as `Session` does, so two runs on the same secret and input agree |
| SessionFacts.UnparsedLineSkipped | src/guess_game/mod.rs:15-17 | a line that does not parse prints only the prompt and the loop goes on to the next read |
| SessionFacts.WrongGuessContinues | src/guess_game/mod.rs:20-24 | a guess other than the secret prints the prompt, the echo and one verdict ("too small" below, "too big" above), and the loop goes on |
| SessionFacts.RightGuessStops | src/guess_game/mod.rs:20-27 | a line holding the secret prints the prompt, the echo and the success message, and the session ends solved at that read |
| SessionFacts.FailedReadPanics | src/guess_game/mod.rs:14 | a failed read ends the session there, with the prompt as the last output |
| SessionFacts.OutputOnlyGrows | src/guess_game/mod.rs:10-30 | the loop only appends to the output: what the rest of the session prints, and how it ends, do not depend on what was printed before |
| SessionFacts.FirstStop | src/guess_game/mod.rs:10-30 | reference definition: the first read at or after a position that is a failure or the secret, with no such read before it |
| SessionFacts.OutcomeIsFirstStop | src/guess_game/mod.rs:10-30 | the session ends at the first read that stops it: solved there when it holds the secret, panicked when it failed, exhausted when there is none |
| SessionFacts.StopsAreHitsOrFailures | src/guess_game/mod.rs:14-27 | a read stops the loop exactly when it fails or its line parses to the secret |
| SessionFacts.SolvedIffSomeLineHoldsSecret | src/guess_game/mod.rs:15-27 | with no failed read, the session is solved if and only if some line parses to the secret; it is solved at the first such line, and otherwise reads the whole script |
| SessionFacts.LaterInputsUnread | src/guess_game/mod.rs:25-28 | once the session has ended, reads after it change nothing |
| SessionFacts.SessionIgnoresUnreadInput | src/guess_game/mod.rs:25-28 | appending input to a script on which the session ends leaves the session unchanged: nothing after the success message or the panic is consumed |
| SessionFacts.ExhaustedPrefix | src/guess_game/mod.rs:10-30 | input on which the session does not end leaves the loop at the top, ready for the next read, with its output printed |
| SessionFacts.GarbageOnlyPrompts | src/guess_game/mod.rs:11-17 | a run of lines that do not parse only prints one prompt each |
| SessionFacts.EndOfInputSpins | src/guess_game/mod.rs:10-17 | at end of input the session never ends: every further read prints a prompt and nothing else |
| SessionFacts.PromptPerRead | src/guess_game/mod.rs:11-14 | the loop prints exactly one prompt per read performed |
| SessionFacts.NoLaterBanner | src/guess_game/mod.rs:8-11 | the loop never prints the banner |
| SessionFacts.OneCorrectIfSolved | src/guess_game/mod.rs:25-27 | the loop prints the success message once when the session is solved, and never otherwise |
| SessionFacts.SolvedEndsWithCorrect | src/guess_game/mod.rs:25-27 | a solved session's last output is the success message |
| SessionFacts.OutputShape | src/guess_game/mod.rs:7-31 | the banner is printed once and first; there are as many prompts as reads; the success message appears if and only if the session is solved, and only as the last event |
| SessionFacts.PassKeepsPairing | src/guess_game/mod.rs:20-28 | one pass through the loop keeps every echo immediately followed by its verdict |
| SessionFacts.ResumeKeepsPairing | src/guess_game/mod.rs:20-28 | the rest of the session keeps every echo immediately followed by its verdict, and every verdict immediately after an echo |
| SessionFacts.EchoesAreJudged | src/guess_game/mod.rs:20-28 | in a whole session, every echoed guess is immediately followed by exactly its verdict, and no verdict appears without the echo of its guess |
| SessionFacts.Typed | src/guess_game/mod.rs:14-15 | the line a player types for a number, echoed form plus newline, parses to that number |
| SessionFacts.ScriptEndingInSecretSolves | src/guess_game/mod.rs:22-27 | a script with no failed read whose last line is the secret is solved, and its output ends with the success message |
| SessionFacts.CountingUpFindsSecret | src/guess_game/mod.rs:9-27 | typing 1, 2, ..., 100 in turn solves every secret `gen_range(1..101)` can draw, at the read numbered secret - 1 |

## Left out

- The random draw `thread_rng().gen_range(1..101)` is a parameter of the session. `IsSecret` states its range, and `RunSession` requires it, as the draw guarantees.
- Console output is a list of event categories, not text. The message strings (including the "Your are right!" wording) appear only as comments on `Event`.
- Console input is a finite script. The `Exhausted` outcome is where the script ends, not something the program does. The program's endless prompting at end of input is captured by `EndOfInputSpins`, for any finite number of further reads.
- `ReadError` carries no error kind, and the panic message of `.expect` is not modelled. A read that is not valid UTF-8 is one such failed read.
- The `String` buffer that `read_line` appends to is fresh on every pass, so the model uses the line's text directly.
- The kinds of `ParseIntError` (empty, invalid digit, overflow) are collapsed into one `None`.
- The ownership examples under `src/ownership` are not part of this model.
