/** The prompt of the program: one question, read again and again until the
    answer is valid or is one of the global commands that leave the question. */
module InputWindow {
  import opened Wrappers
  import opened PyText

  /** A Python value that an answer can turn into: an int when `int()` accepts
      the text, the text itself otherwise. */
  datatype Value = Int(n: int) | Str(s: string)

  /** The three commands that are valid at every prompt: quit, main menu and
      saved-commands menu. */
  const GlobalCommands: seq<string> := ["q", "b", "bs"]

  predicate IsGlobal(v: Value) {
    v.Str? && v.s in GlobalCommands
  }

  /** `int(answer)` where that succeeds, the answer unchanged where it raises. */
  function ToValue(answer: string): Value {
    match ParseInt(answer)
    case Some(n) => Int(n)
    case None => Str(answer)
  }

  /** Python's `str(v)`. */
  function Show(v: Value): string {
    match v
    case Int(n) => IntToDecimal(n)
    case Str(s) => s
  }

  /** What an any-text question returns for a non-global answer: `str(int(answer))`
      where `int()` accepts the answer, the answer itself otherwise. */
  function AsText(answer: string): string {
    Show(ToValue(answer))
  }

  /** What a question accepts: any text at all, or one of a list of values. */
  datatype ValidAnswers = AnyString | OneOf(answers: seq<Value>)

  /** The judgement on one answer: the user leaves the question with a global
      command, gives a valid answer, or gives an invalid one (kept as shown). */
  datatype Verdict = Leave(answer: Value) | Valid(answer: Value) | Invalid(shown: string)

  /** The outcome of a whole question: the answer and how many input lines were
      read to get it, or the end of the input reached first. */
  datatype Asked = Answered(answer: Value, linesRead: nat) | InputEnded

  lemma GlobalCommandsAreNotNumbers(answer: string)
    requires answer in GlobalCommands
    ensures ParseInt(answer).None?
  {
    assert Strip(answer) == answer;
    assert !WellPlaced(answer, 0);
  }

  /** Judges one answer (`__is_the_answer_valid`). */
  function IsTheAnswerValid(valid: ValidAnswers, answer: string): Verdict {
    var converted := ToValue(answer);
    if IsGlobal(converted) then
      Leave(converted)
    else if valid.AnyString? then
      Valid(Str(Show(converted)))
    else if converted in valid.answers then
      Valid(converted)
    else
      Invalid(Show(converted))
  }

  /** A global command leaves whatever the question, and only the literal
      command text does (no number converts to one); any other text is valid
      for an any-text question, a number coming back in Python's own spelling
      of it; otherwise the answer is valid exactly when its converted value is
      one of the valid values. */
  lemma IsTheAnswerValidMeaning(valid: ValidAnswers, answer: string)
    ensures var r := IsTheAnswerValid(valid, answer);
      && (r.Leave? <==> answer in GlobalCommands)
      && (r.Leave? ==> r.answer == Str(answer))
      && (valid.AnyString? ==> !r.Invalid?)
      && (valid.AnyString? && r.Valid? ==>
            r.answer == Str(AsText(answer)))
      && (valid.OneOf? && r.Valid? ==> r.answer in valid.answers && r.answer == ToValue(answer))
      && (valid.OneOf? && !r.Leave? ==> (r.Valid? <==> ToValue(answer) in valid.answers))
  {
    if answer in GlobalCommands {
      GlobalCommandsAreNotNumbers(answer);
    }
  }

  /** Answering an any-text question with what a previous any-text question
      returned gives the same answer back: the int conversion is undone by
      `str` and redone identically. */
  lemma {:induction false} AnyStringAnswerIsStable(answer: string)
    ensures var r := IsTheAnswerValid(AnyString, answer);
      r.Valid? ==> IsTheAnswerValid(AnyString, r.answer.s) == r
  {
    var r := IsTheAnswerValid(AnyString, answer);
    IsTheAnswerValidMeaning(AnyString, answer);
    if r.Valid? {
      match ParseInt(answer) {
        case Some(n) =>
          ParseIntOfDecimal(n);
          if IntToDecimal(n) in GlobalCommands {
            GlobalCommandsAreNotNumbers(IntToDecimal(n));
          }
        case None =>
      }
    }
  }

  predicate Rejected(valid: ValidAnswers, answer: string) {
    IsTheAnswerValid(valid, answer).Invalid?
  }

  /** An any-text question rejects nothing: a global command leaves it, any
      other answer is accepted in its text form. */
  lemma AnyTextIsNeverRejected(answer: string)
    ensures !Rejected(AnyString, answer)
    ensures IsTheAnswerValid(AnyString, answer) ==
      if answer in GlobalCommands then Leave(Str(answer)) else Valid(Str(AsText(answer)))
    ensures answer !in GlobalCommands ==> AsText(answer) !in GlobalCommands
  {
    IsTheAnswerValidMeaning(AnyString, answer);
    if ParseInt(answer).Some? {
      var n := ParseInt(answer).value;
      var text := IntToDecimal(n);
      DecimalIsCanonical(n);
      assert text[0] == '-' || IsDigit(text[0]);
      assert forall g :: g in GlobalCommands ==> |g| > 0 && IsLower(g[0]);
    }
  }

  /** `k` more lines were read before the outcome `r`. */
  function Later(r: Asked, k: nat): Asked {
    match r
    case Answered(answer, n) => Answered(answer, n + k)
    case InputEnded => InputEnded
  }

  /** Reading answers from `lines` until one is not rejected: the first such
      line gives the answer, and every line up to it is consumed. */
  function FirstAccepted(valid: ValidAnswers, lines: seq<string>): (r: Asked)
    ensures r.Answered? ==> 0 < r.linesRead <= |lines|
  {
    if lines == [] then InputEnded
    else if !Rejected(valid, lines[0]) then Answered(IsTheAnswerValid(valid, lines[0]).answer, 1)
    else Later(FirstAccepted(valid, lines[1..]), 1)
  }

  /** The whole question: the answer given on the command line when there is
      one and it is not rejected, the first accepted input line otherwise. */
  function Ask(valid: ValidAnswers, lines: seq<string>, fromArgs: Option<string>): Asked {
    if fromArgs.Some? && !Rejected(valid, fromArgs.value) then
      Answered(IsTheAnswerValid(valid, fromArgs.value).answer, 0)
    else
      FirstAccepted(valid, lines)
  }

  /** Every rejected answer costs exactly one more line: the answer comes from
      the first line that is not rejected, after all earlier lines were
      rejected; the input ends first only when every line is rejected. */
  lemma {:induction false} FirstAcceptedMeaning(valid: ValidAnswers, lines: seq<string>)
    ensures var r := FirstAccepted(valid, lines);
      && (r.Answered? ==>
        && 0 < r.linesRead <= |lines|
        && (forall i {:trigger Rejected(valid, lines[i])} :: 0 <= i < r.linesRead - 1 ==> Rejected(valid, lines[i]))
        && !Rejected(valid, lines[r.linesRead - 1])
        && r.answer == IsTheAnswerValid(valid, lines[r.linesRead - 1]).answer)
      && (r.InputEnded? ==>
        forall i {:trigger Rejected(valid, lines[i])} :: 0 <= i < |lines| ==> Rejected(valid, lines[i]))
    decreases |lines|
  {
    if lines != [] && Rejected(valid, lines[0]) {
      var rest := lines[1..];
      FirstAcceptedMeaning(valid, rest);
      forall i | 1 <= i < |lines|
        ensures Rejected(valid, lines[i]) <==> Rejected(valid, rest[i - 1])
      {
        assert lines[i] == rest[i - 1];
      }
    }
  }

  /** `int("012")` is 12: leading zeros are allowed. */
  lemma ValueOfZeroTwelve(answer: string)
    requires answer == "012"
    ensures ParseInt(answer) == Some(12)
  {
    DigitsAreDigitGroup(answer);
    ParseUnsigned(answer);
    assert DigitsValue(answer[..1]) == 0 by {
      assert answer[..1][..0] == [];
    }
    assert answer[..2][..1] == answer[..1];
  }

  /** A number typed at an any-text question comes back in Python's own
      spelling of it. */
  lemma AnyTextNormalisesNumbers(answer: string)
    requires answer == "012"
    ensures IsTheAnswerValid(AnyString, answer) == Valid(Str("12"))
  {
    ValueOfZeroTwelve(answer);
    assert NatToDecimal(12) == "12";
  }

  /** The verdicts on the answers of the program's own test of the prompt,
      when "Yes" is the only valid answer. */
  lemma ExampleVerdicts(valid: ValidAnswers)
    requires valid == OneOf([Str("Yes")])
    ensures Rejected(valid, "No") && !Rejected(valid, "Yes")
    ensures IsTheAnswerValid(valid, "Yes") == Valid(Str("Yes"))
    ensures Rejected(valid, "012")
    ensures IsTheAnswerValid(valid, "b") == Leave(Str("b"))
  {
    NoSpaceStrip("No");
    assert !WellPlaced("No", 0);
    NoSpaceStrip("Yes");
    assert !WellPlaced("Yes", 0);
    ValueOfZeroTwelve("012");
    IsTheAnswerValidMeaning(valid, "b");
  }

  /** The program's own test of the prompt: with "Yes" the only valid answer,
      "No" is rejected and "Yes" is taken on the second read; on the rest of
      the input "012" (the number 12) is rejected and the global "b" leaves
      on the second read, four reads in all. */
  lemma AskInputExample(lines: seq<string>)
    requires lines == ["No", "Yes", "012", "b"]
    ensures FirstAccepted(OneOf([Str("Yes")]), lines) == Answered(Str("Yes"), 2)
    ensures FirstAccepted(OneOf([Str("Yes")]), lines[2..]) == Answered(Str("b"), 2)
  {
    var valid := OneOf([Str("Yes")]);
    ExampleVerdicts(valid);
    assert lines[1..][0] == "Yes";
    assert lines[2..][1..][0] == "b";
  }

  /** An any-text question is answered by the very next line, if there is one. */
  lemma AnyTextTakesOneLine(lines: seq<string>)
    ensures FirstAccepted(AnyString, lines) ==
      if lines == [] then InputEnded else Answered(IsTheAnswerValid(AnyString, lines[0]).answer, 1)
  {
    if lines != [] {
      AnyTextIsNeverRejected(lines[0]);
    }
  }

  /** The re-asking loop of `ask_input`: reads lines until one is not
      rejected. */
  method ReadAnswer(valid: ValidAnswers, lines: seq<string>) returns (r: Asked)
    ensures r == FirstAccepted(valid, lines)
  {
    var linesRead := 0;
    while linesRead < |lines|
      invariant linesRead <= |lines|
      invariant FirstAccepted(valid, lines) == Later(FirstAccepted(valid, lines[linesRead..]), linesRead)
    {
      var verdict := IsTheAnswerValid(valid, lines[linesRead]);
      assert lines[linesRead..][1..] == lines[linesRead + 1..];
      linesRead := linesRead + 1;
      if !verdict.Invalid? {
        return Answered(verdict.answer, linesRead);
      }
    }
    return InputEnded;
  }

  /** `ask_input`: the first answer comes from the command line when one is
      given, otherwise from the next input line; then lines are read until an
      answer is not rejected. */
  method AskInput(valid: ValidAnswers, lines: seq<string>, fromArgs: Option<string>) returns (r: Asked)
    ensures r == Ask(valid, lines, fromArgs)
  {
    if fromArgs.Some? {
      var verdict := IsTheAnswerValid(valid, fromArgs.value);
      if !verdict.Invalid? {
        return Answered(verdict.answer, 0);
      }
    }
    r := ReadAnswer(valid, lines);
  }
}
