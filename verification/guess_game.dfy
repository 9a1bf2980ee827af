/** The guessing session of `guess_game`: announce the game, then repeatedly
    prompt, read a line, skip it unless it parses as a `u32`, echo the guess and
    compare it with the secret, until a guess equals the secret.

    The random draw of the secret is a parameter, the console input is a finite
    script of read results, and the console output is a list of events. */
module GuessGame {
  import opened Decimal

  /** One line of console output, by category. */
  datatype Event =
    | Banner            // "Guess the number!"
    | Prompt            // "Please input your guess"
    | Echo(guess: U32)  // "You guessed: {}"
    | TooSmall          // "Too small"
    | TooBig            // "Too big"
    | Correct           // "Your are right!"

  /** What one `read_line` call yields: the text read (with its line
      terminator, or empty at end of input), or an I/O error. */
  datatype Read = Line(text: string) | ReadError

  /** How a session over a finite script ends: at the line whose guess equals
      the secret, by running out of script, or at the read that failed (the
      program panics there). Indices count the reads from 0. */
  datatype Outcome = Solved(at: nat) | Exhausted | Panicked(at: nat)
  {
    /** How many reads the session performed on a script of the given length. */
    function LinesRead(scriptLength: nat): nat {
      if Exhausted? then scriptLength else at + 1
    }
  }

  datatype Transcript = Transcript(outcome: Outcome, events: seq<Event>)

  /** The secret drawn by `gen_range(1..101)`. */
  predicate IsSecret(secret: U32) {
    1 <= secret <= 100
  }

  predicate IsVerdict(e: Event) {
    e.TooSmall? || e.TooBig? || e.Correct?
  }

  /** The three-way comparison of a guess against the secret and the message
      each outcome prints. */
  function Verdict(guess: U32, secret: U32): (e: Event)
    ensures IsVerdict(e)
    ensures e == TooSmall <==> guess < secret
    ensures e == TooBig <==> guess > secret
    ensures e == Correct <==> guess == secret
  {
    if guess < secret then TooSmall
    else if guess > secret then TooBig
    else Correct
  }

  /** What the loop makes of one read: a guess, a line that is not a `u32`
      (skipped), or a failed read (the program panics). */
  datatype Input = Guess(value: U32) | Garbage | Failure

  /** The loop's reading of one `read_line` result: the trimmed line parsed
      as a `u32`. */
  function Classify(r: Read): Input {
    match r
    case ReadError => Failure
    case Line(text) =>
      match ParseU32(text)
      case None => Garbage
      case Some(guess) => Guess(guess)
  }

  /** The reads of a script, as the loop reads them. */
  function Inputs(script: seq<Read>): (inputs: seq<Input>)
    ensures |inputs| == |script|
  {
    seq(|script|, k requires 0 <= k < |script| => Classify(script[k]))
  }

  /** A line holding the secret. */
  predicate Hits(secret: U32, r: Read) {
    r.Line? && ParseU32(r.text) == Some(secret)
  }

  /** An input that ends the session: a failed read, or the secret. */
  predicate Stops(secret: U32, c: Input) {
    c.Failure? || c == Guess(secret)
  }

  /** The rest of the session from the top of the loop, about to perform read
      `i`, with `printed` the output so far: the full output and how the
      session ends. Each step is one pass through the loop body. */
  function Resume(secret: U32, inputs: seq<Input>, i: nat, printed: seq<Event>): (t: Transcript)
    requires i <= |inputs|
    ensures |printed| <= |t.events|
    ensures printed != [] ==> t.events[0] == printed[0]
    ensures i <= t.outcome.LinesRead(|inputs|) <= |inputs|
    decreases |inputs| - i
  {
    if i == |inputs| then Transcript(Exhausted, printed)
    else
      var printed := printed + [Prompt];
      match inputs[i]
      case Failure => Transcript(Panicked(i), printed)
      case Garbage => Resume(secret, inputs, i + 1, printed)
      case Guess(guess) =>
        var printed := printed + [Echo(guess)];
        var verdict := Verdict(guess, secret);
        var printed := printed + [verdict];
        if verdict == Correct then Transcript(Solved(i), printed)
        else Resume(secret, inputs, i + 1, printed)
  }

  /** The whole session: the banner, then the loop from the first read on. */
  function Session(secret: U32, script: seq<Read>): (t: Transcript)
    ensures t.events != [] && t.events[0] == Banner
    ensures t.outcome.LinesRead(|script|) <= |script|
  {
    Resume(secret, Inputs(script), 0, [Banner])
  }

  /** `guess_game` run on a given secret and input script. The output grows
      one event at a time and the loop stops at the first guess equal to the
      secret, at a failed read, or when the script runs out; what it prints
      and where it stops are exactly those of Session, so two runs on the same
      secret and script agree. */
  method RunSession(secret: U32, script: seq<Read>) returns (outcome: Outcome, events: seq<Event>)
    requires IsSecret(secret)
    ensures Transcript(outcome, events) == Session(secret, script)
  {
    ghost var inputs := Inputs(script);
    events := [Banner];
    outcome := Exhausted;
    var i := 0;
    while i < |script|
      invariant i <= |script|
      invariant Resume(secret, inputs, i, events) == Session(secret, script)
    {
      assert inputs[i] == Classify(script[i]);
      events := events + [Prompt];
      if script[i].ReadError? {
        outcome := Panicked(i);
        break;
      }
      var parsed := ParseU32(script[i].text);
      if parsed.None? {
        i := i + 1;
        continue;
      }
      var guess := parsed.value;
      events := events + [Echo(guess)];
      var verdict := Verdict(guess, secret);
      events := events + [verdict];
      if verdict == Correct {
        outcome := Solved(i);
        break;
      }
      i := i + 1;
    }
  }
}
