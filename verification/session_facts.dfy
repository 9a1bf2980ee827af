/** What the guessing session guarantees, stated over Session and Resume and
    proved by induction over the reads. */
module SessionFacts {
  import opened Decimal
  import opened GuessGame

  // ---------------------------------------------------------------------------
  // One pass through the loop
  // ---------------------------------------------------------------------------

  /** A line that does not parse as a `u32` is skipped: the loop prints only the
      prompt and goes on to the next read. */
  lemma UnparsedLineSkipped(secret: U32, script: seq<Read>, i: nat, printed: seq<Event>)
    requires i < |script| && script[i].Line? && ParseU32(script[i].text) == None
    ensures Resume(secret, Inputs(script), i, printed)
      == Resume(secret, Inputs(script), i + 1, printed + [Prompt])
  {
  }

  /** A guess other than the secret prints the prompt, the echo and exactly one
      verdict, "too small" below the secret and "too big" above it, and the loop
      goes on to the next read. */
  lemma WrongGuessContinues(secret: U32, script: seq<Read>, i: nat, printed: seq<Event>, guess: U32)
    requires i < |script| && script[i].Line? && ParseU32(script[i].text) == Some(guess)
    requires guess != secret
    ensures var verdict := if guess < secret then TooSmall else TooBig;
      Resume(secret, Inputs(script), i, printed)
      == Resume(secret, Inputs(script), i + 1, printed + [Prompt, Echo(guess), verdict])
  {
    assert Inputs(script)[i] == Guess(guess);
    var verdict := Verdict(guess, secret);
    assert printed + [Prompt] + [Echo(guess)] + [verdict] == printed + [Prompt, Echo(guess), verdict];
  }

  /** A line holding the secret prints the prompt, the echo and the success
      message, and ends the session at that read. */
  lemma RightGuessStops(secret: U32, script: seq<Read>, i: nat, printed: seq<Event>)
    requires i < |script| && Hits(secret, script[i])
    ensures Resume(secret, Inputs(script), i, printed)
      == Transcript(Solved(i), printed + [Prompt, Echo(secret), Correct])
  {
  }

  /** A failed read panics: the prompt is the last thing printed. */
  lemma FailedReadPanics(secret: U32, script: seq<Read>, i: nat, printed: seq<Event>)
    requires i < |script| && script[i].ReadError?
    ensures Resume(secret, Inputs(script), i, printed) == Transcript(Panicked(i), printed + [Prompt])
  {
  }

  /** Output is only ever appended: the rest of the session prints the same
      events and ends the same way whatever was printed before. */
  lemma {:induction false} OutputOnlyGrows(secret: U32, inputs: seq<Input>, i: nat, printed: seq<Event>)
    requires i <= |inputs|
    ensures var t := Resume(secret, inputs, i, []);
      Resume(secret, inputs, i, printed) == Transcript(t.outcome, printed + t.events)
    decreases |inputs| - i
  {
    if i < |inputs| {
      match inputs[i]
      case Failure =>
        assert printed + [Prompt] == printed + ([] + [Prompt]);
      case Garbage =>
        OutputOnlyGrows(secret, inputs, i + 1, printed + [Prompt]);
        OutputOnlyGrows(secret, inputs, i + 1, [] + [Prompt]);
        var rest := Resume(secret, inputs, i + 1, []).events;
        assert printed + [Prompt] + rest == printed + ([] + [Prompt] + rest);
      case Guess(guess) =>
        var verdict := Verdict(guess, secret);
        var pass := [] + [Prompt] + [Echo(guess)] + [verdict];
        assert printed + [Prompt] + [Echo(guess)] + [verdict] == printed + pass;
        if verdict != Correct {
          OutputOnlyGrows(secret, inputs, i + 1, printed + pass);
          OutputOnlyGrows(secret, inputs, i + 1, pass);
          var rest := Resume(secret, inputs, i + 1, []).events;
          assert printed + pass + rest == printed + (pass + rest);
        }
    }
  }

  // ---------------------------------------------------------------------------
  // Where the session stops
  // ---------------------------------------------------------------------------

  /** The first input at or after `i` that ends the session, or |inputs| when
      there is none. */
  function FirstStop(secret: U32, inputs: seq<Input>, i: nat): (f: nat)
    requires i <= |inputs|
    ensures i <= f <= |inputs|
    ensures f < |inputs| ==> Stops(secret, inputs[f])
    ensures forall j :: i <= j < f ==> !Stops(secret, inputs[j])
    decreases |inputs| - i
  {
    if i == |inputs| || Stops(secret, inputs[i]) then i else FirstStop(secret, inputs, i + 1)
  }

  /** How a session ends when input `f` is the first to stop it. */
  function EndAt(inputs: seq<Input>, f: nat): (o: Outcome)
    requires f <= |inputs|
    ensures o.Exhausted? <==> f == |inputs|
    ensures o.Panicked? <==> f < |inputs| && inputs[f].Failure?
    ensures !o.Exhausted? ==> o.at == f
  {
    if f == |inputs| then Exhausted
    else if inputs[f].Failure? then Panicked(f)
    else Solved(f)
  }

  /** The session ends at the first input that stops it, and runs out of input
      only when none does. */
  lemma {:induction false} OutcomeIsFirstStop(secret: U32, inputs: seq<Input>, i: nat, printed: seq<Event>)
    requires i <= |inputs|
    ensures Resume(secret, inputs, i, printed).outcome == EndAt(inputs, FirstStop(secret, inputs, i))
    decreases |inputs| - i
  {
    if i < |inputs| {
      match inputs[i]
      case Failure =>
      case Garbage =>
        OutcomeIsFirstStop(secret, inputs, i + 1, printed + [Prompt]);
      case Guess(guess) =>
        var verdict := Verdict(guess, secret);
        if verdict != Correct {
          OutcomeIsFirstStop(secret, inputs, i + 1, printed + [Prompt] + [Echo(guess)] + [verdict]);
        }
    }
  }

  /** The reads of a script as the loop sees them: a failed read stops it, and
      a line stops it exactly when it holds the secret. */
  lemma StopsAreHitsOrFailures(secret: U32, script: seq<Read>, j: nat)
    requires j < |script|
    ensures Stops(secret, Inputs(script)[j]) <==> script[j].ReadError? || Hits(secret, script[j])
    ensures Inputs(script)[j].Failure? <==> script[j].ReadError?
  {
  }

  /** When no read fails, the session is solved exactly when some line holds the
      secret, and then it is solved at the first such line; otherwise it reads
      the whole script. */
  lemma SolvedIffSomeLineHoldsSecret(secret: U32, script: seq<Read>)
    requires forall j :: 0 <= j < |script| ==> script[j].Line?
    ensures Session(secret, script).outcome.Solved?
      <==> exists j :: 0 <= j < |script| && Hits(secret, script[j])
    ensures Session(secret, script).outcome.Solved? || Session(secret, script).outcome.Exhausted?
    ensures var o := Session(secret, script).outcome;
      o.Solved? ==>
        && o.at < |script| && Hits(secret, script[o.at])
        && forall j :: 0 <= j < o.at ==> !Hits(secret, script[j])
  {
    var inputs := Inputs(script);
    OutcomeIsFirstStop(secret, inputs, 0, [Banner]);
    forall j | 0 <= j < |script|
      ensures Stops(secret, inputs[j]) <==> Hits(secret, script[j])
      ensures !inputs[j].Failure?
    {
      StopsAreHitsOrFailures(secret, script, j);
    }
  }

  /** Inputs after the one that ends the session are never consumed. */
  lemma {:induction false} LaterInputsUnread(secret: U32, inputs: seq<Input>, more: seq<Input>, i: nat, printed: seq<Event>)
    requires i <= |inputs|
    requires !Resume(secret, inputs, i, printed).outcome.Exhausted?
    ensures Resume(secret, inputs + more, i, printed) == Resume(secret, inputs, i, printed)
    decreases |inputs| - i
  {
    if i < |inputs| {
      assert (inputs + more)[i] == inputs[i];
      match inputs[i]
      case Failure =>
      case Garbage =>
        LaterInputsUnread(secret, inputs, more, i + 1, printed + [Prompt]);
      case Guess(guess) =>
        var verdict := Verdict(guess, secret);
        if verdict != Correct {
          LaterInputsUnread(secret, inputs, more, i + 1, printed + [Prompt] + [Echo(guess)] + [verdict]);
        }
    }
  }

  lemma InputsDistribute(script: seq<Read>, more: seq<Read>)
    ensures Inputs(script + more) == Inputs(script) + Inputs(more)
  {
  }

  /** The session stops reading at the read that ends it: whatever follows in
      the input does not change the session. */
  lemma SessionIgnoresUnreadInput(secret: U32, script: seq<Read>, more: seq<Read>)
    requires !Session(secret, script).outcome.Exhausted?
    ensures Session(secret, script + more) == Session(secret, script)
  {
    InputsDistribute(script, more);
    LaterInputsUnread(secret, Inputs(script), Inputs(more), 0, [Banner]);
  }

  /** Input that runs out without the session ending leaves it at the top of
      the loop, ready for the next read, with all its output printed. */
  lemma {:induction false} ExhaustedPrefix(secret: U32, inputs: seq<Input>, more: seq<Input>, i: nat, printed: seq<Event>)
    requires i <= |inputs|
    requires Resume(secret, inputs, i, printed).outcome.Exhausted?
    ensures Resume(secret, inputs + more, i, printed)
      == Resume(secret, inputs + more, |inputs|, Resume(secret, inputs, i, printed).events)
    decreases |inputs| - i
  {
    if i < |inputs| {
      assert (inputs + more)[i] == inputs[i];
      match inputs[i]
      case Failure =>
      case Garbage =>
        ExhaustedPrefix(secret, inputs, more, i + 1, printed + [Prompt]);
      case Guess(guess) =>
        var verdict := Verdict(guess, secret);
        if verdict != Correct {
          ExhaustedPrefix(secret, inputs, more, i + 1, printed + [Prompt] + [Echo(guess)] + [verdict]);
        }
    }
  }

  /** `k` reads at end of input: `read_line` then yields the empty line. */
  function EndOfInput(k: nat): (rs: seq<Read>)
    ensures |rs| == k
    ensures forall n :: 0 <= n < k ==> rs[n] == Line("")
  {
    seq(k, _ => Line(""))
  }

  /** Skipped inputs only prompt again. */
  lemma {:induction false} GarbageOnlyPrompts(secret: U32, inputs: seq<Input>, from: nat, printed: seq<Event>)
    requires from <= |inputs|
    requires forall n :: from <= n < |inputs| ==> inputs[n] == Garbage
    ensures Resume(secret, inputs, from, printed)
      == Transcript(Exhausted, printed + seq(|inputs| - from, _ => Prompt))
    decreases |inputs| - from
  {
    if from < |inputs| {
      GarbageOnlyPrompts(secret, inputs, from + 1, printed + [Prompt]);
      assert printed + [Prompt] + seq(|inputs| - (from + 1), _ => Prompt)
        == printed + seq(|inputs| - from, _ => Prompt);
    } else {
      assert printed + seq(|inputs| - from, _ => Prompt) == printed;
    }
  }

  /** At end of input `read_line` succeeds with an empty line, which does not
      parse, so the loop goes on prompting: input that ran out without the
      secret never ends the session, however many more reads follow. */
  lemma EndOfInputSpins(secret: U32, script: seq<Read>, k: nat)
    requires Session(secret, script).outcome == Exhausted
    ensures Session(secret, script + EndOfInput(k))
      == Transcript(Exhausted, Session(secret, script).events + seq(k, _ => Prompt))
  {
    var t := Session(secret, script);
    var inputs := Inputs(script + EndOfInput(k));
    InputsDistribute(script, EndOfInput(k));
    ExhaustedPrefix(secret, Inputs(script), Inputs(EndOfInput(k)), 0, [Banner]);
    forall n | |script| <= n < |inputs| ensures inputs[n] == Garbage {
      assert inputs[n] == Inputs(EndOfInput(k))[n - |script|] == Classify(Line(""));
      BlankRejected("");
    }
    GarbageOnlyPrompts(secret, inputs, |script|, t.events);
  }

  // ---------------------------------------------------------------------------
  // The shape of the output
  // ---------------------------------------------------------------------------

  /** Each read is preceded by exactly one prompt. */
  lemma {:induction false} PromptPerRead(secret: U32, inputs: seq<Input>, i: nat, printed: seq<Event>)
    requires i <= |inputs|
    ensures var t := Resume(secret, inputs, i, printed);
      multiset(t.events)[Prompt] == multiset(printed)[Prompt] + t.outcome.LinesRead(|inputs|) - i
    decreases |inputs| - i
  {
    if i < |inputs| {
      var p := printed + [Prompt];
      assert multiset(p)[Prompt] == multiset(printed)[Prompt] + 1;
      match inputs[i]
      case Failure =>
      case Garbage =>
        PromptPerRead(secret, inputs, i + 1, p);
      case Guess(guess) =>
        var verdict := Verdict(guess, secret);
        var q := p + [Echo(guess)] + [verdict];
        assert multiset(q)[Prompt] == multiset(p)[Prompt];
        if verdict != Correct {
          PromptPerRead(secret, inputs, i + 1, q);
        }
    }
  }

  /** The banner is printed before the loop and never inside it. */
  lemma {:induction false} NoLaterBanner(secret: U32, inputs: seq<Input>, i: nat, printed: seq<Event>)
    requires i <= |inputs|
    ensures var t := Resume(secret, inputs, i, printed);
      multiset(t.events)[Banner] == multiset(printed)[Banner]
    decreases |inputs| - i
  {
    if i < |inputs| {
      var p := printed + [Prompt];
      assert multiset(p)[Banner] == multiset(printed)[Banner];
      match inputs[i]
      case Failure =>
      case Garbage =>
        NoLaterBanner(secret, inputs, i + 1, p);
      case Guess(guess) =>
        var verdict := Verdict(guess, secret);
        var q := p + [Echo(guess)] + [verdict];
        assert multiset(q)[Banner] == multiset(p)[Banner];
        if verdict != Correct {
          NoLaterBanner(secret, inputs, i + 1, q);
        }
    }
  }

  /** The loop prints the success message once when the session is solved, and
      never otherwise. */
  lemma {:induction false} OneCorrectIfSolved(secret: U32, inputs: seq<Input>, i: nat, printed: seq<Event>)
    requires i <= |inputs|
    ensures var t := Resume(secret, inputs, i, printed);
      multiset(t.events)[Correct] == multiset(printed)[Correct] + (if t.outcome.Solved? then 1 else 0)
    decreases |inputs| - i
  {
    if i < |inputs| {
      var p := printed + [Prompt];
      assert multiset(p)[Correct] == multiset(printed)[Correct];
      match inputs[i]
      case Failure =>
      case Garbage =>
        OneCorrectIfSolved(secret, inputs, i + 1, p);
      case Guess(guess) =>
        var verdict := Verdict(guess, secret);
        var q := p + [Echo(guess)] + [verdict];
        assert multiset(q)[Correct] == multiset(p)[Correct] + (if verdict == Correct then 1 else 0);
        if verdict != Correct {
          OneCorrectIfSolved(secret, inputs, i + 1, q);
        }
    }
  }

  /** A solved session ends with the success message. */
  lemma {:induction false} SolvedEndsWithCorrect(secret: U32, inputs: seq<Input>, i: nat, printed: seq<Event>)
    requires i <= |inputs|
    requires Resume(secret, inputs, i, printed).outcome.Solved?
    ensures var t := Resume(secret, inputs, i, printed); t.events[|t.events| - 1] == Correct
    decreases |inputs| - i
  {
    match inputs[i]
    case Failure =>
    case Garbage =>
      SolvedEndsWithCorrect(secret, inputs, i + 1, printed + [Prompt]);
    case Guess(guess) =>
      var verdict := Verdict(guess, secret);
      if verdict != Correct {
        SolvedEndsWithCorrect(secret, inputs, i + 1, printed + [Prompt] + [Echo(guess)] + [verdict]);
      }
  }

  /** An event that occurs once, as the last event, occurs nowhere earlier. */
  lemma OnceAtEnd(s: seq<Event>, e: Event)
    requires s != [] && s[|s| - 1] == e && multiset(s)[e] == 1
    ensures forall k :: 0 <= k < |s| - 1 ==> s[k] != e
  {
    var front := s[..|s| - 1];
    assert s == front + [e];
    assert multiset(front)[e] == 0;
    forall k | 0 <= k < |s| - 1 ensures s[k] != e {
      assert s[k] == front[k];
    }
  }

  /** The output of a session: the banner once and first; one prompt per read;
      the success message if and only if the session is solved, and then as the
      very last event. */
  lemma OutputShape(secret: U32, script: seq<Read>)
    ensures var t := Session(secret, script);
      && t.events[0] == Banner && multiset(t.events)[Banner] == 1
      && multiset(t.events)[Prompt] == t.outcome.LinesRead(|script|)
      && (Correct in t.events <==> t.outcome.Solved?)
      && (t.outcome.Solved? ==> t.events[|t.events| - 1] == Correct)
      && forall k :: 0 <= k < |t.events| - 1 ==> t.events[k] != Correct
  {
    var inputs := Inputs(script);
    var t := Session(secret, script);
    assert t == Resume(secret, inputs, 0, [Banner]);
    assert multiset(t.events)[Banner] == 1 by {
      NoLaterBanner(secret, inputs, 0, [Banner]);
    }
    assert multiset(t.events)[Prompt] == t.outcome.LinesRead(|script|) by {
      PromptPerRead(secret, inputs, 0, [Banner]);
    }
    var corrects := multiset(t.events)[Correct];
    assert corrects == if t.outcome.Solved? then 1 else 0 by {
      OneCorrectIfSolved(secret, inputs, 0, [Banner]);
    }
    assert Correct in t.events <==> corrects > 0;
    if t.outcome.Solved? {
      SolvedEndsWithCorrect(secret, inputs, 0, [Banner]);
      OnceAtEnd(t.events, Correct);
    }
  }

  /** Every echo is followed at once by the verdict on that guess, and every
      verdict directly follows the echo of its guess. */
  ghost predicate EchoThenVerdict(secret: U32, s: seq<Event>) {
    && (forall k :: 0 <= k < |s| && s[k].Echo? ==> k + 1 < |s| && s[k + 1] == Verdict(s[k].guess, secret))
    && (forall k :: 0 <= k < |s| && IsVerdict(s[k]) ==> 0 < k && s[k - 1].Echo?)
  }

  /** The output of one pass through the loop keeps every echo next to its
      verdict. */
  lemma PassKeepsPairing(secret: U32, s: seq<Event>, guess: U32)
    requires EchoThenVerdict(secret, s)
    ensures EchoThenVerdict(secret, s + [Prompt])
    ensures EchoThenVerdict(secret, s + [Prompt] + [Echo(guess)] + [Verdict(guess, secret)])
  {
  }

  lemma {:induction false} ResumeKeepsPairing(secret: U32, inputs: seq<Input>, i: nat, printed: seq<Event>)
    requires i <= |inputs|
    requires EchoThenVerdict(secret, printed)
    ensures EchoThenVerdict(secret, Resume(secret, inputs, i, printed).events)
    decreases |inputs| - i
  {
    if i < |inputs| {
      match inputs[i]
      case Failure =>
        PassKeepsPairing(secret, printed, 0);
      case Garbage =>
        PassKeepsPairing(secret, printed, 0);
        ResumeKeepsPairing(secret, inputs, i + 1, printed + [Prompt]);
      case Guess(guess) =>
        PassKeepsPairing(secret, printed, guess);
        var verdict := Verdict(guess, secret);
        if verdict != Correct {
          ResumeKeepsPairing(secret, inputs, i + 1, printed + [Prompt] + [Echo(guess)] + [verdict]);
        }
    }
  }

  /** In the whole output, each parsed guess is echoed and immediately judged,
      and no verdict appears without the echo of its guess. */
  lemma EchoesAreJudged(secret: U32, script: seq<Read>)
    ensures EchoThenVerdict(secret, Session(secret, script).events)
  {
    ResumeKeepsPairing(secret, Inputs(script), 0, [Banner]);
  }

  // ---------------------------------------------------------------------------
  // Scripted sessions
  // ---------------------------------------------------------------------------

  /** The line a player types for guess `n`, with its line terminator. */
  function Typed(n: U32): (r: Read)
    ensures r.Line? && ParseU32(r.text) == Some(n)
  {
    ParseFormatted([], n, "\n");
    assert [] + Format(n) + "\n" == Format(n) + "\n";
    Line(Format(n) + "\n")
  }

  /** A script whose last line is the secret, typed, and whose reads all
      succeed, is solved, and its output ends with the success message. */
  lemma ScriptEndingInSecretSolves(secret: U32, script: seq<Read>)
    requires script != [] && script[|script| - 1] == Typed(secret)
    requires forall j :: 0 <= j < |script| ==> script[j].Line?
    ensures Session(secret, script).outcome.Solved?
    ensures var t := Session(secret, script); t.events[|t.events| - 1] == Correct
  {
    var inputs := Inputs(script);
    OutcomeIsFirstStop(secret, inputs, 0, [Banner]);
    StopsAreHitsOrFailures(secret, script, |script| - 1);
    var f := FirstStop(secret, inputs, 0);
    StopsAreHitsOrFailures(secret, script, f);
    SolvedEndsWithCorrect(secret, inputs, 0, [Banner]);
  }

  /** Typing 1, 2, ..., 100 in turn: the script that finds every secret. */
  function CountingUp(): (script: seq<Read>)
    ensures |script| == 100
    ensures forall k :: 0 <= k < 100 ==> script[k] == Typed(k + 1)
  {
    seq(100, k requires 0 <= k < 100 => Typed(k + 1))
  }

  /** Counting up finds every secret `gen_range(1..101)` can draw, at the read
      numbered secret - 1. */
  lemma CountingUpFindsSecret(secret: U32)
    requires IsSecret(secret)
    ensures Session(secret, CountingUp()).outcome == Solved(secret - 1)
  {
    var script := CountingUp();
    var inputs := Inputs(script);
    OutcomeIsFirstStop(secret, inputs, 0, [Banner]);
    StopsAreHitsOrFailures(secret, script, secret - 1);
    var f := FirstStop(secret, inputs, 0);
    StopsAreHitsOrFailures(secret, script, f);
    assert script[f] == Typed(f + 1);
  }
}
