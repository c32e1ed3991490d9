/** `RunMe.convert_answer`: splits a main-menu answer into an option (the
    leading lower-case letters) and a command id (the first run of digits, kept
    only when it is a valid id) or, for the terminal-text option "t", the text
    that follows the "t". */
module AnswerParser {
  import opened Wrappers
  import opened PyText
  import opened InputWindow

  /** The option and the command id or text a main-menu answer carries. */
  datatype Parsed = Parsed(option: Option<string>, commandId: Option<Value>)

  const TextOption: string := "t"

  /** What `^[a-z]+` matches: the longest prefix of lower-case ASCII letters. */
  function LeadingLowercase(s: string): (r: string)
    ensures |r| <= |s| && r == s[..|r|]
    ensures forall i :: 0 <= i < |r| ==> IsLower(r[i])
    ensures |r| == |s| || !IsLower(s[|r|])
  {
    if |s| > 0 && IsLower(s[0]) then [s[0]] + LeadingLowercase(s[1..]) else []
  }

  /** The longest prefix of ASCII digits. */
  function LeadingDigits(s: string): (r: string)
    ensures |r| <= |s| && r == s[..|r|]
    ensures forall i :: 0 <= i < |r| ==> IsDigit(r[i])
    ensures |r| == |s| || !IsDigit(s[|r|])
  {
    if |s| > 0 && IsDigit(s[0]) then [s[0]] + LeadingDigits(s[1..]) else []
  }

  /** Where the first digit of `s` is, if there is one. */
  function FirstDigitAt(s: string): (r: Option<nat>)
    ensures r.None? <==> forall i :: 0 <= i < |s| ==> !IsDigit(s[i])
    ensures r.Some? ==>
      r.value < |s| && IsDigit(s[r.value]) && forall i :: 0 <= i < r.value ==> !IsDigit(s[i])
  {
    if |s| == 0 then None
    else if IsDigit(s[0]) then Some(0)
    else match FirstDigitAt(s[1..]) {
      case None => None
      case Some(i) => Some(i + 1)
    }
  }

  /** What `[0-9]+` finds first, converted with `int()`: the value of the
      first maximal run of digits. */
  function FirstNumber(s: string): Option<nat> {
    match FirstDigitAt(s)
    case None => None
    case Some(i) => Some(DigitsValue(LeadingDigits(s[i..])))
  }

  /** The longest prefix without a line break (what `.+` can span). */
  function UpToNewline(s: string): (r: string)
    ensures |r| <= |s| && r == s[..|r|]
    ensures forall i :: 0 <= i < |r| ==> r[i] != '\n'
    ensures |r| == |s| || s[|r|] == '\n'
  {
    if |s| > 0 && s[0] != '\n' then [s[0]] + UpToNewline(s[1..]) else []
  }

  /** What group 2 of `([t])(.+)` captures when searched for in `s`: after the
      first "t" that is followed by at least one character other than a line
      break, everything up to the next line break. */
  function TextAfterT(s: string): (r: Option<string>)
    ensures r.Some? ==> |r.value| > 0
  {
    if |s| < 2 then None
    else if s[0] == 't' && s[1] != '\n' then Some(UpToNewline(s[1..]))
    else TextAfterT(s[1..])
  }

  /** The match of `([t])(.+)` can start at `i`: a "t" followed by a character
      other than a line break. */
  predicate TextStartsAt(s: string, i: int) {
    0 <= i < |s| - 1 && s[i] == 't' && s[i + 1] != '\n'
  }

  /** The text is found exactly when some "t" is followed by a character
      other than a line break; it is then taken after the first such "t",
      up to the next line break or the end. */
  lemma {:induction false} TextAfterTMeaning(s: string)
    ensures TextAfterT(s).None? <==> forall i :: 0 <= i < |s| ==> !TextStartsAt(s, i)
    ensures TextAfterT(s).Some? ==>
      exists i :: && TextStartsAt(s, i)
                  && (forall j :: 0 <= j < i ==> !TextStartsAt(s, j))
                  && TextAfterT(s).value == UpToNewline(s[i + 1..])
    decreases |s|
  {
    if |s| >= 2 && !(s[0] == 't' && s[1] != '\n') {
      var rest := s[1..];
      TextAfterTMeaning(rest);
      assert forall i :: 0 <= i < |rest| ==> (TextStartsAt(rest, i) <==> TextStartsAt(s, i + 1));
      assert !TextStartsAt(s, 0);
      if TextAfterT(rest).Some? {
        var i :| && TextStartsAt(rest, i)
                 && (forall j :: 0 <= j < i ==> !TextStartsAt(rest, j))
                 && TextAfterT(rest).value == UpToNewline(rest[i + 1..]);
        assert rest[i + 1..] == s[i + 2..];
        forall j | 0 <= j < i + 1
          ensures !TextStartsAt(s, j)
        {
          if j > 0 {
            assert !TextStartsAt(rest, j - 1);
          }
        }
        assert TextStartsAt(s, i + 1);
      } else {
        forall i | 0 <= i < |s|
          ensures !TextStartsAt(s, i)
        {
          if i > 0 {
            assert !TextStartsAt(rest, i - 1);
          }
        }
      }
    } else if |s| >= 2 {
      assert TextStartsAt(s, 0);
    }
  }

  /** `convert_answer`. An answer that does not start with a lower-case letter
      gives neither option nor id. For "t" the rest of the line is the text to
      run. For any other option the id is the first number in the answer, kept
      only when it is one of the valid ids. */
  function ConvertAnswer(answer: string, validIds: seq<int>): (r: Parsed)
    ensures r.option.None? <==> |answer| == 0 || !IsLower(answer[0])
    ensures r.option.None? ==> r.commandId.None?
    ensures r.option.Some? ==>
      var o := r.option.value;
      && 0 < |o| <= |answer| && o == answer[..|o|]
      && (forall i :: 0 <= i < |o| ==> IsLower(o[i]))
      && (|o| == |answer| || !IsLower(answer[|o|]))
    ensures r.option == Some(TextOption) ==>
      r.commandId == (match TextAfterT(answer) case Some(text) => Some(Str(text)) case None => None)
    ensures r.option.Some? && r.option != Some(TextOption) ==>
      && (r.commandId.Some? <==> FirstNumber(answer).Some? && FirstNumber(answer).value in validIds)
      && (r.commandId.Some? ==> r.commandId.value == Int(FirstNumber(answer).value))
  {
    var letters := LeadingLowercase(answer);
    if letters == [] then
      Parsed(None, None)
    else if letters == TextOption then
      match TextAfterT(answer)
      case Some(text) => Parsed(Some(letters), Some(Str(text)))
      case None => Parsed(Some(letters), None)
    else
      match FirstNumber(answer)
      case Some(n) => Parsed(Some(letters), if n in validIds then Some(Int(n)) else None)
      case None => Parsed(Some(letters), None)
  }

  /** On one line of input (no line break) the text after "t" is everything
      after the first character; it never starts with a lower-case letter, so
      it is never one of the global commands. */
  lemma {:induction false} TextArgumentOfOneLine(answer: string, validIds: seq<int>)
    requires forall i :: 0 <= i < |answer| ==> answer[i] != '\n'
    requires ConvertAnswer(answer, validIds).option == Some(TextOption)
    ensures ConvertAnswer(answer, validIds).commandId ==
      (if |answer| >= 2 then Some(Str(answer[1..])) else None)
    ensures ConvertAnswer(answer, validIds).commandId.Some? ==>
      !IsGlobal(ConvertAnswer(answer, validIds).commandId.value)
  {
    var r := ConvertAnswer(answer, validIds);
    assert answer[0] == 't';
    if |answer| >= 2 {
      var rest := answer[1..];
      assert UpToNewline(rest) == rest by {
        assert forall i :: 0 <= i < |rest| ==> rest[i] != '\n';
      }
      assert !IsLower(answer[1]);
      assert rest[0] == answer[1];
      assert rest !in GlobalCommands by {
        assert forall g :: g in GlobalCommands ==> |g| > 0 && IsLower(g[0]);
      }
    }
  }

  /** The option is exactly the run of lower-case letters the answer starts with. */
  lemma OptionIsLeadingLetters(answer: string, validIds: seq<int>, k: nat)
    requires 0 < k <= |answer|
    requires forall i :: 0 <= i < k ==> IsLower(answer[i])
    requires k == |answer| || !IsLower(answer[k])
    ensures ConvertAnswer(answer, validIds).option == Some(answer[..k])
  {
  }

  /** The number found is the value of the first maximal run of digits. */
  lemma FirstNumberIsFirstRun(s: string, i: nat, j: nat)
    requires i < j <= |s|
    requires forall k :: 0 <= k < i ==> !IsDigit(s[k])
    requires forall k :: i <= k < j ==> IsDigit(s[k])
    requires j == |s| || !IsDigit(s[j])
    ensures FirstNumber(s) == Some(DigitsValue(s[i..j]))
  {
    var at := FirstDigitAt(s);
    assert IsDigit(s[i]);
    assert at == Some(i);
    var run := LeadingDigits(s[i..]);
    assert run == s[i..j];
  }

  /** Cases from the program's own test suite (valid ids 2, 3, 1): the id may
      follow the option directly or after spaces. */
  lemma ConvertOptionWithAdjacentId(answer: string)
    requires answer == "a3"
    ensures ConvertAnswer(answer, [2, 3, 1]) == Parsed(Some("a"), Some(Int(3)))
  {
    OptionIsLeadingLetters(answer, [2, 3, 1], 1);
    assert answer[..1] == "a";
    FirstNumberIsFirstRun(answer, 1, 2);
    assert answer[1..2] == "3" && DigitsValue("3") == 3;
  }

  lemma ConvertOptionWithSpacedId(answer: string)
    requires answer == "bs 1"
    ensures ConvertAnswer(answer, [2, 3, 1]) == Parsed(Some("bs"), Some(Int(1)))
  {
    OptionIsLeadingLetters(answer, [2, 3, 1], 2);
    assert answer[..2] == "bs";
    FirstNumberIsFirstRun(answer, 3, 4);
    assert answer[3..4] == "1" && DigitsValue("1") == 1;
  }

  lemma ConvertOptionWithFarId(answer: string)
    requires answer == "exportall   2"
    ensures ConvertAnswer(answer, [2, 3, 1]) == Parsed(Some("exportall"), Some(Int(2)))
  {
    OptionIsLeadingLetters(answer, [2, 3, 1], 9);
    assert answer[..9] == "exportall";
    FirstNumberIsFirstRun(answer, 12, 13);
    assert answer[12..13] == "2" && DigitsValue("2") == 2;
  }

  /** A number that is not a valid id is dropped. */
  lemma ConvertDropsUnknownId(answer: string)
    requires answer == "sfsf    1002"
    ensures ConvertAnswer(answer, [2, 3, 1]) == Parsed(Some("sfsf"), None)
  {
    OptionIsLeadingLetters(answer, [2, 3, 1], 4);
    assert answer[..4] == "sfsf";
    FirstNumberOfSpacedId(answer);
  }

  lemma FirstNumberOfSpacedId(answer: string)
    requires answer == "sfsf    1002"
    ensures FirstNumber(answer) == Some(1002)
  {
    FirstNumberIsFirstRun(answer, 8, 12);
    ValueOf1002(answer[8..12]);
  }

  lemma ValueOf1002(d: string)
    requires d == "1002"
    ensures DigitsValue(d) == 1002
  {
    assert DigitsValue(d[..1]) == 1 by {
      assert d[..1][..0] == [];
    }
    assert DigitsValue(d[..2]) == 10 by {
      assert d[..2][..1] == d[..1];
    }
    assert DigitsValue(d[..3]) == 100 by {
      assert d[..3][..2] == d[..2];
    }
    assert d[..4][..3] == d[..3];
  }

  /** An answer that starts with anything but a lower-case letter has no option. */
  lemma ConvertRejectsLeadingSign(answer: string)
    requires answer == "-100setuserdep" || answer == "   "
    ensures ConvertAnswer(answer, [2, 3, 1]) == Parsed(None, None)
  {
  }

  /** An option without digits carries no id. */
  lemma ConvertOptionAlone(answer: string)
    requires answer == "setuserdep" || answer == "b"
    ensures ConvertAnswer(answer, [2, 3, 1]) == Parsed(Some(answer), None)
  {
    OptionIsLeadingLetters(answer, [2, 3, 1], |answer|);
    assert answer[..|answer|] == answer;
    assert forall i :: 0 <= i < |answer| ==> !IsDigit(answer[i]);
  }
}
