/** `RunMe`: the main loop of the program. Each turn reads one answer (or
    takes the command-line arguments, or repeats the last option), splits it
    into an option and an argument, and runs that option. */
module RunMe {
  import opened Wrappers
  import opened InputWindow
  import opened AnswerParser
  import opened SavedCommandsStore
  import UserDataStore
  import ViewContents

  const OptExecute: string := "e"
  const OptAdd: string := "a"
  const OptEdit: string := "edit"
  const OptDelete: string := "d"
  const OptShowOne: string := "ss"
  const OptMainMenu: string := "b"
  const OptSavedMenu: string := "bs"
  const OptHelp: string := "help"
  const OptRepeat: string := "r"
  const OptQuit: string := "q"
  const OptExport: string := "exportall"
  const OptSetUser: string := "setuser"
  const OptSetUserDep: string := "setuserdep"

  /** The options that act on one saved command and need its id. */
  const IdOptions: seq<string> := [OptExecute, OptDelete, OptEdit, OptShowOne]

  /** The options `do_repeatable_menu_option` records as the last command. */
  const Repeatables: seq<string> := [OptSetUser, OptSetUserDep, TextOption, OptExecute, OptDelete, OptEdit, OptShowOne, OptAdd]

  const ExitMessage: string := "CommandSaver program exited."

  /** What the user sees happen, other than changes to the two tables. */
  datatype Event =
    | MainMenuShown
    | SavedCommandsMenuShown
    | HelpShown
    | NotInMainMenu(option: string)
    | Shell(text: string)
    | FullCommandShown(id: int)
    | Exported(file: seq<string>)
    | NothingToRepeat

  /** How `run_program` ends: with its exit message after "q", or because the
      input ran out while a question was open (Python's EOFError). */
  datatype Outcome = Exited(message: string) | InputExhausted

  /** The positions of the table as values a question can accept. */
  function IdValues(ids: seq<int>): seq<Value> {
    seq(|ids|, i requires 0 <= i < |ids| => Int(ids[i]))
  }

  function Positions(views: seq<CommandView>): seq<int> {
    seq(|views|, i requires 0 <= i < |views| => views[i].numRow)
  }

  /** The text `__init__` hands to the single action: the option followed
      directly by the command id, when one was given. */
  function SingleActionText(option: string, commandId: Option<Value>): string {
    option + (if commandId.Some? then Show(commandId.value) else "")
  }

  function Bit(b: bool): nat {
    if b then 1 else 0
  }

  /** An option that needs an id never carries text: "t" is not among them,
      so whatever id `convert_answer` keeps for it is a number. */
  lemma IdOptionsCarryNumbers(answer: string, validIds: seq<int>)
    ensures var p := ConvertAnswer(answer, validIds);
      p.option.Some? && p.option.value in IdOptions && p.commandId.Some? ==>
        p.commandId.value.Int? && p.commandId.value.n in validIds
  {
    assert TextOption !in IdOptions;
  }

  /** A question for an id is answered with one of the ids or with a global
      command; a global command on the first line is taken at once. */
  lemma IdAnswerIsIdOrGlobal(ids: seq<int>, lines: seq<string>)
    ensures var r := FirstAccepted(OneOf(IdValues(ids)), lines);
      r.Answered? ==> (r.answer.Int? && r.answer.n in ids) || IsGlobal(r.answer)
    ensures lines != [] && lines[0] in GlobalCommands ==>
      FirstAccepted(OneOf(IdValues(ids)), lines) == Answered(Str(lines[0]), 1)
  {
    var valid := OneOf(IdValues(ids));
    FirstAcceptedMeaning(valid, lines);
    var r := FirstAccepted(valid, lines);
    if r.Answered? {
      var line := lines[r.linesRead - 1];
      IsTheAnswerValidMeaning(valid, line);
      var v := IsTheAnswerValid(valid, line);
      if v.Valid? {
        var k :| 0 <= k < |IdValues(ids)| && IdValues(ids)[k] == v.answer;
        assert v.answer == Int(ids[k]);
      }
    }
    if lines != [] && lines[0] in GlobalCommands {
      IsTheAnswerValidMeaning(valid, lines[0]);
    }
  }

  class Program {
    var option: Option<string>
    var commandId: Option<Value>
    var lastCommand: Option<string>
    var repeatLastCommand: bool
    var oneActionOnly: bool
    var oneActionOnlyExecuted: bool
    var validOptions: seq<string>
    var validIds: seq<int>
    /** The answers still to be typed. */
    var stdin: seq<string>
    /** A question found no more input. */
    var inputEnded: bool
    var trace: seq<Event>

    const commands: SavedCommands
    const profile: UserDataStore.UserData
    /** The accepted confirmations of a destructive action. */
    const yes: seq<Value>
    const no: seq<Value>
    /** The clock: today's date and the time in seconds. */
    const today: string
    const now: real

    predicate Valid()
      reads this, commands
    {
      && commands.Valid()
      && (repeatLastCommand ==>
            option.Some? &&
            (option.value in GlobalCommands || (option.value in Repeatables && commandId.None?)))
      && (lastCommand.Some? ==> lastCommand.value in Repeatables)
      && (oneActionOnly ==> option.Some? && !oneActionOnlyExecuted && !repeatLastCommand)
      && (!oneActionOnly && option.Some? && option.value in IdOptions && commandId.Some? ==>
            commandId.value.Int?)
    }

    /** What is left to do: input lines, the pending single action, the exit
        not yet chosen, a pending repetition, input not yet exhausted. Every
        turn makes it smaller. */
    function Measure(): nat
      reads this
    {
      8 * |stdin| + 4 * Bit(oneActionOnly) + 2 * Bit(option != Some(OptQuit)) +
        Bit(repeatLastCommand) + Bit(!inputEnded)
    }

    /** `__init__`: a command-line option (and id) starts the single-action
        mode; without one the program waits for answers. */
    constructor (argOption: Option<string>, argCommandId: Option<string>, stdin: seq<string>,
                 commands: SavedCommands, profile: UserDataStore.UserData,
                 yes: seq<Value>, no: seq<Value>, today: string, now: real)
      requires commands.Valid()
      ensures Valid()
      ensures this.stdin == stdin && this.commands == commands && this.profile == profile
      ensures argOption.Some? && argOption.value != "" ==>
        && option == argOption && oneActionOnly
        && commandId == (if argCommandId.Some? && argCommandId.value != "" then Some(Str(argCommandId.value)) else None)
      ensures !(argOption.Some? && argOption.value != "") ==> option.None? && commandId.None? && !oneActionOnly
      ensures lastCommand.None? && !repeatLastCommand && !oneActionOnlyExecuted && !inputEnded && trace == []
    {
      option := None;
      commandId := None;
      lastCommand := None;
      repeatLastCommand := false;
      oneActionOnly := false;
      oneActionOnlyExecuted := false;
      validOptions := [];
      validIds := [];
      this.stdin := stdin;
      inputEnded := false;
      trace := [];
      this.commands := commands;
      this.profile := profile;
      this.yes := yes;
      this.no := no;
      this.today := today;
      this.now := now;
      new;
      if argOption.Some? && argOption.value != "" {
        if argCommandId.Some? && argCommandId.value != "" {
          option := argOption;
          commandId := Some(Str(argCommandId.value));
          oneActionOnly := true;
        } else {
          option := argOption;
          oneActionOnly := true;
        }
      }
    }


    /** `__refresh_lists`: appends the catalog tags and the current positions
        to the two lists, which only ever grow. */
    method RefreshLists()
      modifies this`validOptions, this`validIds
      ensures validOptions == old(validOptions) + ViewContents.Tags(ViewContents.Catalog)
      ensures validIds == old(validIds) + Positions(commands.ViewAll())
      ensures forall o :: o in old(validOptions) ==> o in validOptions
      ensures forall id :: id in old(validIds) ==> id in validIds
    {
      var options := validOptions;
      var t := ViewContents.Catalog;
      for i := 0 to |t|
        invariant options == validOptions + ViewContents.Tags(t[..i])
      {
        assert ViewContents.Tags(t[..i + 1]) == ViewContents.Tags(t[..i]) + [t[i].tag];
        options := options + [t[i].tag];
      }
      assert t[..|t|] == t;
      var ids := validIds;
      var t2 := commands.ViewAll();
      for i := 0 to |t2|
        invariant ids == validIds + Positions(t2[..i])
      {
        assert Positions(t2[..i + 1]) == Positions(t2[..i]) + [t2[i].numRow];
        ids := ids + [t2[i].numRow];
      }
      assert t2[..|t2|] == t2;
      validOptions := options;
      validIds := ids;
    }

    /** `__global_option_checker`: a global command replaces the option and
        is run on the next turn without a new answer. */
    method GlobalOptionChecker(item: Value) returns (isGlobal: bool)
      modifies this`option, this`repeatLastCommand
      ensures isGlobal <==> IsGlobal(item)
      ensures isGlobal ==> option == Some(item.s) && repeatLastCommand
      ensures !isGlobal ==> option == old(option) && repeatLastCommand == old(repeatLastCommand)
    {
      if IsGlobal(item) {
        option := Some(item.s);
        repeatLastCommand := true;
        return true;
      }
      return false;
    }

    /** Asks an any-text question on the remaining input; a global command
        comes back as is. */
    method AskText() returns (answer: Option<Value>)
      modifies this`stdin, this`inputEnded
      ensures stdin == if old(stdin) == [] then [] else old(stdin)[1..]
      ensures answer.None? <==> old(stdin) == []
      ensures answer.None? ==> inputEnded
      ensures answer.Some? ==>
        && inputEnded == old(inputEnded) && answer.value.Str?
        && answer.value == IsTheAnswerValid(AnyString, old(stdin)[0]).answer
    {
      AnyTextTakesOneLine(stdin);
      if stdin != [] {
        AnyTextIsNeverRejected(stdin[0]);
      }
      var asked := AskInput(AnyString, stdin, None);
      if asked.InputEnded? {
        inputEnded := true;
        return None;
      }
      stdin := stdin[asked.linesRead..];
      return Some(asked.answer);
    }

    /** `self.option, self.command_id = self.convert_answer(answer)`. */
    method TakeAnswer(answer: string)
      requires commands.Valid() && !repeatLastCommand && !oneActionOnly
      requires lastCommand.Some? ==> lastCommand.value in Repeatables
      modifies this`option, this`commandId
      ensures Valid()
      ensures option == ConvertAnswer(answer, validIds).option
      ensures commandId == ConvertAnswer(answer, validIds).commandId
    {
      var parsed := ConvertAnswer(answer, validIds);
      IdOptionsCarryNumbers(answer, validIds);
      option, commandId := parsed.option, parsed.commandId;
    }

    /** The first half of a turn: a pending repetition is consumed without
        reading; a finished single action turns into "q"; otherwise the
        answer (from the arguments in single-action mode, else from the next
        line) is split into option and argument. */
    method Prompt()
      requires Valid() && option != Some(OptQuit) && !inputEnded
      modifies this`option, this`commandId, this`repeatLastCommand, this`oneActionOnly,
        this`oneActionOnlyExecuted, this`stdin, this`inputEnded
      ensures Valid() && !repeatLastCommand && !oneActionOnly
      ensures old(repeatLastCommand) ==>
        option == old(option) && commandId == old(commandId) && stdin == old(stdin) && !inputEnded &&
        (option.value in GlobalCommands || (option.value in Repeatables && commandId.None?))
      ensures !old(repeatLastCommand) && !old(oneActionOnly) && old(oneActionOnlyExecuted) ==>
        option == Some(OptQuit) && stdin == old(stdin) && !inputEnded
      ensures !old(repeatLastCommand) && !old(oneActionOnly) && !old(oneActionOnlyExecuted) ==>
        && (old(stdin) == [] ==> inputEnded && option == old(option) && stdin == old(stdin))
        && (old(stdin) != [] ==>
              && !inputEnded && stdin == old(stdin)[1..]
              && var parsed := ConvertAnswer(Show(IsTheAnswerValid(AnyString, old(stdin)[0]).answer), validIds);
                 option == parsed.option && commandId == parsed.commandId)
      ensures old(oneActionOnly) ==>
        && oneActionOnlyExecuted && stdin == old(stdin) && !inputEnded
        && var parsed := ConvertAnswer(
             Show(IsTheAnswerValid(AnyString, SingleActionText(old(option).value, old(commandId))).answer), validIds);
           option == parsed.option && commandId == parsed.commandId
    {
      if repeatLastCommand {
        repeatLastCommand := false;
      } else if !oneActionOnly {
        if oneActionOnlyExecuted {
          option := Some(OptQuit);
        } else {
          var answer := AskText();
          if answer.Some? {
            TakeAnswer(Show(answer.value));
          }
        }
      } else {
        oneActionOnly := false;
        oneActionOnlyExecuted := true;
        var fromArgs := SingleActionText(option.value, commandId);
        AnyTextIsNeverRejected(fromArgs);
        var asked := AskInput(AnyString, stdin, Some(fromArgs));
        TakeAnswer(Show(asked.answer));
      }
    }

    /** `change_author` or `change_authors_department` on the next line of
        input. */
    method ChangeProfile(department: bool) returns (r: UserDataStore.ProfileChange)
      modifies this`stdin, profile
      ensures stdin == if old(stdin) == [] then [] else old(stdin)[1..]
      ensures r.NoInput? <==> old(stdin) == []
      ensures old(stdin) == [] ==>
        profile.username == old(profile.username) && profile.department == old(profile.department)
      ensures old(stdin) != [] && old(stdin)[0] in GlobalCommands ==>
        && r == UserDataStore.LeftWith(old(stdin)[0])
        && profile.username == old(profile.username) && profile.department == old(profile.department)
      ensures old(stdin) != [] && old(stdin)[0] !in GlobalCommands ==>
        && r.Changed?
        && (department ==>
              profile.department == AsText(old(stdin)[0]) && profile.username == old(profile.username))
        && (!department ==>
              profile.username == AsText(old(stdin)[0]) && profile.department == old(profile.department))
    {
      var linesRead: nat;
      if department {
        r, linesRead := profile.ChangeAuthorsDepartment(stdin);
      } else {
        r, linesRead := profile.ChangeAuthor(stdin);
      }
      stdin := stdin[linesRead..];
    }

    /** How a profile question ends the option: the end of the input, or a
        global command, which becomes the next option. */
    method ProfileChangeEnds(r: UserDataStore.ProfileChange) returns (stopped: bool)
      requires Valid() && !repeatLastCommand && !oneActionOnly && !inputEnded
      requires option.Some? && option.value !in IdOptions
      requires r.LeftWith? ==> r.token in GlobalCommands
      modifies this`inputEnded, this`option, this`repeatLastCommand
      ensures Valid()
      ensures inputEnded <==> r.NoInput?
      ensures stopped <==> !r.Changed?
      ensures r.LeftWith? ==> option == Some(r.token) && repeatLastCommand
      ensures !r.LeftWith? ==> option == old(option) && !repeatLastCommand
    {
      match r {
        case NoInput =>
          inputEnded := true;
          stopped := true;
        case LeftWith(token) =>
          stopped := GlobalOptionChecker(Str(token));
        case Changed =>
          stopped := false;
      }
    }

    /** `do_repeatable_menu_option` around `__option_to_setuser` and
        `__option_to_setuserdep`: records the option, changes the profile and
        stops on a global command. */
    method ProfileOption(department: bool) returns (stopped: bool)
      requires Valid() && !repeatLastCommand && !oneActionOnly && !inputEnded
      requires option == Some(if department then OptSetUserDep else OptSetUser)
      modifies this`lastCommand, this`stdin, this`inputEnded, this`option, this`repeatLastCommand, profile
      ensures Valid()
      ensures lastCommand == old(option)
      ensures stdin == if old(stdin) == [] then [] else old(stdin)[1..]
      ensures |stdin| <= old(|stdin|)
      ensures repeatLastCommand ==> |stdin| < old(|stdin|)
      ensures !stopped ==> option == old(option) && !repeatLastCommand
      ensures inputEnded <==> old(stdin) == []
      ensures inputEnded ==> stopped
      ensures old(stdin) == [] ==>
        stopped && option == old(option) && !repeatLastCommand &&
        profile.username == old(profile.username) && profile.department == old(profile.department)
      ensures old(stdin) != [] && old(stdin)[0] in GlobalCommands ==>
        stopped && option == Some(old(stdin)[0]) && repeatLastCommand &&
        profile.username == old(profile.username) && profile.department == old(profile.department)
      ensures old(stdin) != [] && old(stdin)[0] !in GlobalCommands ==>
        && !stopped
        && (department ==>
              profile.department == AsText(old(stdin)[0]) && profile.username == old(profile.username))
        && (!department ==>
              profile.username == AsText(old(stdin)[0]) && profile.department == old(profile.department))
    {
      lastCommand := option;
      // `__option_to_setuser` and `__option_to_setuserdep` record their own tag.
      lastCommand := Some(if department then OptSetUserDep else OptSetUser);
      var r := ChangeProfile(department);
      stopped := ProfileChangeEnds(r);
    }

    /** `__global_option_checker` on the text, then `do_repeatable_menu_option`
        around `__option_to_execute_text_in_terminal`, which hands the text to
        the shell. */
    method RunText() returns (stopped: bool)
      requires Valid() && !repeatLastCommand && !oneActionOnly && option == Some(TextOption)
      requires commandId.Some?
      modifies this`option, this`repeatLastCommand, this`lastCommand, this`trace, commands
      ensures Valid()
      ensures commands.rows == old(commands.rows)
      ensures stopped <==> IsGlobal(commandId.value)
      ensures stopped ==>
        option == Some(commandId.value.s) && repeatLastCommand && trace == old(trace) && lastCommand == old(lastCommand)
      ensures !stopped ==>
        && option == old(option) && !repeatLastCommand && lastCommand == Some(TextOption)
        && trace == old(trace) + [Shell(Show(commandId.value))]
    {
      stopped := GlobalOptionChecker(commandId.value);
      if !stopped {
        lastCommand := option;
        // The id argument is not used on the terminal-text path.
        var ran := commands.ExecuteCommand(0, Some(Show(commandId.value)));
        trace := trace + [Shell(ran.text)];
      }
    }

    /** The "t" option: asks for the text when none came with the option,
        then runs it unless it is a global command. */
    method TextOptionBranch() returns (stopped: bool)
      requires Valid() && !repeatLastCommand && !oneActionOnly && option == Some(TextOption)
      requires !inputEnded
      modifies this`commandId, this`stdin, this`inputEnded, this`option, this`repeatLastCommand,
        this`lastCommand, this`trace, commands
      ensures Valid()
      ensures |stdin| <= old(|stdin|)
      ensures repeatLastCommand ==> |stdin| < old(|stdin|) || old(commandId).Some?
      ensures !stopped ==> option == old(option) && !repeatLastCommand && lastCommand == Some(TextOption)
      ensures commands.rows == old(commands.rows)
      ensures inputEnded ==> stopped
      ensures stopped ==> trace == old(trace) && lastCommand == old(lastCommand)
      ensures old(commandId).Some? ==> stdin == old(stdin) && !inputEnded
      ensures old(commandId).Some? && !IsGlobal(old(commandId).value) ==>
        !stopped && trace == old(trace) + [Shell(Show(old(commandId).value))]
      ensures old(commandId).Some? && IsGlobal(old(commandId).value) ==>
        stopped && option == Some(old(commandId).value.s) && repeatLastCommand
      ensures old(commandId).None? ==>
        && stdin == (if old(stdin) == [] then [] else old(stdin)[1..])
        && (inputEnded <==> old(stdin) == [])
        && (old(stdin) != [] && old(stdin)[0] in GlobalCommands ==>
              stopped && option == Some(old(stdin)[0]) && repeatLastCommand)
        && (old(stdin) != [] && old(stdin)[0] !in GlobalCommands ==>
              !stopped && trace == old(trace) + [Shell(AsText(old(stdin)[0]))])
    {
      if stdin != [] {
        AnyTextIsNeverRejected(stdin[0]);
      }
      var answer := commandId;
      if answer.None? {
        answer := AskText();
      }
      if answer.None? {
        stopped := true;
      } else {
        commandId := answer;
        stopped := RunText();
      }
    }

    /** Keeps the answer to the id question as the command id; a global
        command becomes the next option. */
    method TakeIdAnswer(answer: Value) returns (stopped: bool)
      requires Valid() && !repeatLastCommand && !oneActionOnly
      requires option.Some? && option.value in IdOptions
      requires (answer.Int? && answer.n in validIds) || IsGlobal(answer)
      modifies this`commandId, this`option, this`repeatLastCommand
      ensures Valid()
      ensures commandId == Some(answer)
      ensures stopped <==> IsGlobal(answer)
      ensures stopped ==> option == Some(answer.s) && repeatLastCommand
      ensures !stopped ==> option == old(option) && !repeatLastCommand
    {
      commandId := Some(answer);
      stopped := GlobalOptionChecker(answer);
    }

    /** Asks for the id of the command to act on, among the valid ids; a
        global command leaves the question and becomes the next option. */
    method AskCommandId() returns (stopped: bool)
      requires Valid() && !repeatLastCommand && !oneActionOnly && !inputEnded
      requires option.Some? && option.value in IdOptions && commandId.None?
      modifies this`stdin, this`inputEnded, this`commandId, this`option, this`repeatLastCommand
      ensures Valid()
      ensures |stdin| <= old(|stdin|)
      ensures !inputEnded ==> |stdin| < old(|stdin|)
      ensures repeatLastCommand ==> !inputEnded
      ensures inputEnded ==> stopped
      ensures !stopped ==>
        option == old(option) && !repeatLastCommand &&
        commandId.Some? && commandId.value.Int? && commandId.value.n in validIds
      ensures var a := FirstAccepted(OneOf(IdValues(validIds)), old(stdin));
        && (inputEnded <==> a.InputEnded?)
        && (a.InputEnded? ==>
              stdin == old(stdin) && option == old(option) && !repeatLastCommand && commandId == old(commandId))
        && (a.Answered? ==>
              && stdin == old(stdin)[a.linesRead..] && commandId == Some(a.answer)
              && (stopped <==> IsGlobal(a.answer))
              && (stopped ==> option == Some(a.answer.s) && repeatLastCommand))
      ensures old(stdin) != [] && old(stdin)[0] in GlobalCommands ==>
        stopped && option == Some(old(stdin)[0]) && repeatLastCommand
    {
      IdAnswerIsIdOrGlobal(validIds, stdin);
      var asked := AskInput(OneOf(IdValues(validIds)), stdin, None);
      if asked.InputEnded? {
        inputEnded := true;
        stopped := true;
      } else {
        stdin := stdin[asked.linesRead..];
        stopped := TakeIdAnswer(asked.answer);
      }
    }

    /** What `__option_to_edit` leaves behind, run on position `id` from the
        input `input` and the table `rows0`: the table and the lines read are
        those of the confirmed edit; the end of the input or a global command
        given at the confirmation stops the option, and a global command
        becomes the next option with a repeat pending. */
    predicate EditedOrLeft(id: int, input: seq<string>, rows0: seq<SavedCommand>, stopped: bool)
      reads this, commands
    {
      var o := RiskyOutcome(Edit(now), rows0, id, input, yes, no);
      && commands.rows == o.rows && stdin == input[o.linesRead..]
      && (inputEnded <==> o.reply == NoAnswer)
      && (stopped <==> o.reply == NoAnswer || o.reply.LeftWith?)
      && (o.reply.LeftWith? ==> option == Some(o.reply.token) && repeatLastCommand)
      && (!o.reply.LeftWith? ==> option == Some(OptEdit) && !repeatLastCommand)
    }

    /** `__option_to_edit`: edits the command; a global command given at the
        confirmation becomes the next option. */
    method EditOption(id: int) returns (stopped: bool)
      requires Valid() && !repeatLastCommand && !oneActionOnly && !inputEnded
      requires option == Some(OptEdit)
      modifies this`stdin, this`inputEnded, this`option, this`repeatLastCommand, commands
      ensures Valid()
      ensures EditedOrLeft(id, old(stdin), old(commands.rows), stopped)
      ensures Find(old(commands.rows), id).Some? ==>
        var confirmation := FirstAccepted(OneOf(yes + no), old(stdin));
        confirmation.Answered? && confirmation.answer in yes && confirmation.linesRead < |old(stdin)| ==>
          commands.rows == Edited(old(commands.rows), id,
                                  Show(IsTheAnswerValid(AnyString, old(stdin)[confirmation.linesRead]).answer), Seconds(now))
      ensures |stdin| <= old(|stdin|)
      ensures repeatLastCommand ==> |stdin| < old(|stdin|)
      ensures !stopped ==> option == old(option) && !repeatLastCommand
      ensures inputEnded ==> stopped
    {
      var reply, linesRead := commands.EditCommand(id, stdin, yes, no, now);
      stdin := stdin[linesRead..];
      stopped := false;
      if reply == NoAnswer {
        inputEnded := true;
        stopped := true;
      } else if reply.LeftWith? {
        stopped := GlobalOptionChecker(Str(reply.token));
      }
    }

    /** What "e", "d", "edit" or "ss" leaves behind, run on position `id`
        from the input `input`, the table `rows0` and the trace `trace0`:
        "e" counts a call and hands the command to the shell, and goes on even
        when the position holds no command (that result is dropped); "d" is
        the confirmed delete, whose reply is dropped; "edit" is `EditedOrLeft`; "ss" shows the command. */
    predicate RanOnCommand(op: string, id: int, input: seq<string>, rows0: seq<SavedCommand>,
                           trace0: seq<Event>, stopped: bool)
      reads this, commands
    {
      && lastCommand == Some(op)
      && (op != OptEdit ==> option == Some(op) && !repeatLastCommand)
      && (op == OptExecute ==>
            && stdin == input && !inputEnded && !stopped
            && (Find(rows0, id).None? ==> commands.rows == rows0 && trace == trace0)
            && (Find(rows0, id).Some? ==>
                  commands.rows == UpdateWhere(rows0, id, CountCall) &&
                  trace == trace0 + [Shell(Find(rows0, id).value)]))
      && (op == OptDelete ==>
            var o := RiskyOutcome(Delete, rows0, id, input, yes, no);
            && commands.rows == o.rows && stdin == input[o.linesRead..] && trace == trace0
            && (inputEnded <==> o.reply == NoAnswer) && (stopped <==> inputEnded))
      && (op == OptEdit ==> trace == trace0 && EditedOrLeft(id, input, rows0, stopped))
      && (op == OptShowOne ==>
            && !stopped && stdin == input && !inputEnded && commands.rows == rows0
            && trace == trace0 + [FullCommandShown(id)])
    }

    /** Runs "e", "d", "edit" or "ss" on the command whose id is known,
        through `do_repeatable_menu_option`. */
    method RunOnCommand() returns (stopped: bool)
      requires Valid() && !repeatLastCommand && !oneActionOnly && !inputEnded
      requires option.Some? && option.value in IdOptions && commandId.Some? && commandId.value.Int?
      modifies this`lastCommand, this`stdin, this`inputEnded, this`trace, this`option,
        this`repeatLastCommand, commands
      ensures Valid()
      ensures RanOnCommand(old(option).value, old(commandId).value.n, old(stdin), old(commands.rows), old(trace), stopped)
      ensures lastCommand == old(option)
      ensures old(trace) <= trace
      ensures |stdin| <= old(|stdin|)
      ensures repeatLastCommand ==> |stdin| < old(|stdin|)
      ensures !stopped ==> option == old(option) && !repeatLastCommand
      ensures inputEnded ==> stopped
    {
      var id := commandId.value.n;
      lastCommand := option;
      stopped := false;
      if option == Some(OptExecute) {
        var ran := commands.ExecuteCommand(id, None);
        if ran.Ran? {
          trace := trace + [Shell(ran.text)];
        }
        // `__option_to_execute` drops what `execute_command` returns, so a
        // position that holds no command does not stop the option.
      } else if option == Some(OptDelete) {
        var ended, linesRead := commands.DeleteCommand(id, stdin, yes, no);
        stdin := stdin[linesRead..];
        if ended {
          inputEnded := true;
          stopped := true;
        }
      } else if option == Some(OptEdit) {
        stopped := EditOption(id);
      } else {
        lastCommand := Some(OptShowOne);
        trace := trace + [FullCommandShown(id)];
      }
    }

    /** The options that act on one saved command: asks for the id when none
        came with the option, leaves on a global command, otherwise runs the
        option. */
    method IdOptionBranch() returns (stopped: bool)
      requires Valid() && !repeatLastCommand && !oneActionOnly
      requires option.Some? && option.value in IdOptions
      requires !inputEnded
      modifies this`commandId, this`lastCommand, this`stdin, this`inputEnded, this`trace, this`option,
        this`repeatLastCommand, commands
      ensures Valid()
      ensures |stdin| <= old(|stdin|)
      ensures repeatLastCommand ==> |stdin| < old(|stdin|)
      ensures !stopped ==> option == old(option) && !repeatLastCommand
      ensures inputEnded ==> stopped
      ensures old(trace) <= trace
      ensures old(commandId).Some? ==>
        RanOnCommand(old(option).value, old(commandId).value.n, old(stdin), old(commands.rows), old(trace), stopped)
      ensures old(commandId).None? ==>
        var a := FirstAccepted(OneOf(IdValues(validIds)), old(stdin));
        && (a.InputEnded? ==>
              && stopped && inputEnded && stdin == old(stdin) && commands.rows == old(commands.rows)
              && trace == old(trace) && lastCommand == old(lastCommand))
        && (a.Answered? && IsGlobal(a.answer) ==>
              && stopped && option == Some(a.answer.s) && repeatLastCommand && stdin == old(stdin)[a.linesRead..]
              && commands.rows == old(commands.rows) && trace == old(trace) && lastCommand == old(lastCommand))
        && (a.Answered? && !IsGlobal(a.answer) ==>
              && a.answer.Int? && commandId == Some(a.answer)
              && RanOnCommand(old(option).value, a.answer.n, old(stdin)[a.linesRead..], old(commands.rows),
                              old(trace), stopped))
      ensures old(commandId).None? && old(stdin) != [] && old(stdin)[0] in GlobalCommands ==>
        stopped && option == Some(old(stdin)[0]) && repeatLastCommand && commands.rows == old(commands.rows)
    {
      stopped := false;
      if commandId.None? {
        stopped := AskCommandId();
      }
      if !stopped {
        stopped := RunOnCommand();
      }
    }

    /** An any-text question of an option (`__ask_command_description`,
        `__ask_new_command`) followed by `__global_option_checker`: the end of
        the input or a global command stops the option, which a global command
        replaces. */
    method AskTextOrLeave() returns (text: Option<Value>)
      requires Valid() && !repeatLastCommand && !oneActionOnly && !inputEnded
      modifies this`stdin, this`inputEnded, this`option, this`repeatLastCommand
      ensures Valid()
      ensures stdin == if old(stdin) == [] then [] else old(stdin)[1..]
      ensures inputEnded <==> old(stdin) == []
      ensures text.Some? <==> old(stdin) != [] && old(stdin)[0] !in GlobalCommands
      ensures text.Some? ==>
        text.value == Str(AsText(old(stdin)[0])) && option == old(option) && !repeatLastCommand
      ensures old(stdin) != [] && old(stdin)[0] in GlobalCommands ==>
        option == Some(old(stdin)[0]) && repeatLastCommand
      ensures old(stdin) == [] ==> option == old(option) && !repeatLastCommand
    {
      if stdin != [] {
        AnyTextIsNeverRejected(stdin[0]);
      }
      text := AskText();
      if text.Some? {
        var globalCmd := GlobalOptionChecker(text.value);
        if globalCmd {
          text := None;
        }
      }
    }

    /** `do_repeatable_menu_option` around `__option_to_add`: asks for the
        description and the command, leaving on a global command after
        either, then adds the row. */
    method AddOption() returns (stopped: bool)
      requires Valid() && !repeatLastCommand && !oneActionOnly && option == Some(OptAdd)
      requires !inputEnded
      modifies this`lastCommand, this`stdin, this`inputEnded, this`option, this`repeatLastCommand, commands
      ensures Valid()
      ensures lastCommand == Some(OptAdd)
      ensures |stdin| <= old(|stdin|)
      ensures repeatLastCommand ==> |stdin| < old(|stdin|)
      ensures !stopped ==> option == old(option) && !repeatLastCommand
      ensures inputEnded ==> stopped
      ensures commands.rows != old(commands.rows) ==>
        !stopped && |old(stdin)| >= 2 && stdin == old(stdin)[2..] &&
        |commands.rows| == |old(commands.rows)| + 1 &&
        commands.rows[..|old(commands.rows)|] == old(commands.rows)
      ensures old(stdin) == [] ==>
        stopped && inputEnded && stdin == old(stdin) && commands.rows == old(commands.rows)
      ensures old(stdin) != [] && old(stdin)[0] in GlobalCommands ==>
        && stopped && !inputEnded && option == Some(old(stdin)[0]) && repeatLastCommand
        && stdin == old(stdin)[1..] && commands.rows == old(commands.rows)
      ensures |old(stdin)| == 1 && old(stdin)[0] !in GlobalCommands ==>
        stopped && inputEnded && stdin == [] && commands.rows == old(commands.rows)
      ensures |old(stdin)| >= 2 && old(stdin)[0] !in GlobalCommands && old(stdin)[1] in GlobalCommands ==>
        && stopped && !inputEnded && option == Some(old(stdin)[1]) && repeatLastCommand
        && stdin == old(stdin)[2..] && commands.rows == old(commands.rows)
      ensures |old(stdin)| >= 2 && old(stdin)[0] !in GlobalCommands && old(stdin)[1] !in GlobalCommands ==>
        && !stopped && !inputEnded && stdin == old(stdin)[2..]
        && commands.rows == old(commands.rows) +
             [SavedCommand(|old(commands.rows)| + 1, AsText(old(stdin)[0]), AsText(old(stdin)[1]), today,
                           TruncMillis(now), 0, profile.username, Millis(TruncMillis(now)))]
    {
      lastCommand := option;
      stopped := true;
      var description := AskTextOrLeave();
      if description.Some? {
        var newCommand := AskTextOrLeave();
        if newCommand.Some? {
          commands.AddNewCommand(Show(description.value), Show(newCommand.value), profile, today, now);
          stopped := false;
        }
      }
    }

    /** "r": the last recorded option runs again on the next turn, asking
        afresh for its id. */
    method RepeatLast()
      requires Valid() && !oneActionOnly && option == Some(OptRepeat)
      modifies this`option, this`commandId, this`repeatLastCommand, this`trace
      ensures Valid()
      ensures old(lastCommand).Some? ==>
        option == lastCommand && commandId.None? && repeatLastCommand && trace == old(trace)
      ensures old(lastCommand).None? ==>
        trace == old(trace) + [NothingToRepeat] && option == old(option) &&
        repeatLastCommand == old(repeatLastCommand)
    {
      if lastCommand.Some? {
        option := lastCommand;
        commandId := None;
        repeatLastCommand := true;
      } else {
        trace := trace + [NothingToRepeat];
      }
    }

    /** Nothing but the trace changed since the method started. */
    twostate predicate OnlyTraceChanged()
      reads this, commands, profile
    {
      && option == old(option) && commandId == old(commandId) && lastCommand == old(lastCommand)
      && repeatLastCommand == old(repeatLastCommand) && stdin == old(stdin) && inputEnded == old(inputEnded)
      && commands.rows == old(commands.rows)
      && profile.username == old(profile.username) && profile.department == old(profile.department)
    }

    /** The options of the menu, past the menu check. In the source each
        check is a separate `if` that falls through when the option ran
        without stopping; such an option leaves `option` unchanged, so no
        later check can match and a chain of alternatives is the same. */
    method RunOption()
      requires Valid() && !repeatLastCommand && !oneActionOnly && !inputEnded
      requires option.Some? && option.value in validOptions && option != Some(OptMainMenu)
      modifies this`option, this`commandId, this`lastCommand, this`repeatLastCommand, this`stdin,
        this`inputEnded, this`trace, commands, profile
      ensures Valid()
      ensures |stdin| <= old(|stdin|)
      ensures repeatLastCommand ==>
        |stdin| < old(|stdin|) || old(option) == Some(OptRepeat) ||
        (old(option) == Some(TextOption) && old(commandId).Some?)
      ensures old(trace) <= trace
      ensures old(option) == Some(OptQuit) ==> OnlyTraceChanged() && trace == old(trace)
      ensures old(option) == Some(OptSavedMenu) ==> OnlyTraceChanged() && trace == old(trace) + [SavedCommandsMenuShown]
      ensures old(option) == Some(OptHelp) ==> OnlyTraceChanged() && trace == old(trace) + [HelpShown]
      ensures old(option) == Some(OptExport) ==>
        OnlyTraceChanged() && trace == old(trace) + [Exported(ExportFile(old(commands.rows)))]
      ensures old(option) == Some(OptRepeat) ==>
        && lastCommand == old(lastCommand)
        && (old(lastCommand).Some? ==> option == old(lastCommand) && commandId.None? && repeatLastCommand)
        && (old(lastCommand).None? ==> trace == old(trace) + [NothingToRepeat] && !repeatLastCommand)
    {
      var stopped := false;
      if option == Some(OptSavedMenu) {
        trace := trace + [SavedCommandsMenuShown];
      } else if option == Some(OptHelp) {
        trace := trace + [HelpShown];
      } else if option == Some(OptSetUser) {
        stopped := ProfileOption(false);
      } else if option == Some(OptSetUserDep) {
        stopped := ProfileOption(true);
      } else if option == Some(TextOption) {
        stopped := TextOptionBranch();
      } else if option.value in IdOptions {
        stopped := IdOptionBranch();
      } else if option == Some(OptAdd) {
        stopped := AddOption();
      } else if option == Some(OptExport) {
        var file := commands.ExportAll();
        trace := trace + [Exported(file)];
      } else if option == Some(OptRepeat) {
        RepeatLast();
      }
    }

    /** The second half of a turn: runs the option in the order `run_program`
        checks them. "b" shows the main menu before the option is checked
        against the menu; an option not in the menu runs nothing. */
    method Dispatch()
      requires Valid() && !repeatLastCommand && !oneActionOnly && !inputEnded
      modifies this`option, this`commandId, this`lastCommand, this`repeatLastCommand, this`stdin,
        this`inputEnded, this`trace, commands, profile
      ensures Valid()
      ensures |stdin| <= old(|stdin|)
      ensures repeatLastCommand ==>
        |stdin| < old(|stdin|) || old(option) == Some(OptRepeat) ||
        (old(option) == Some(TextOption) && old(commandId).Some?)
      ensures old(trace) <= trace
      ensures old(option).None? ==> OnlyTraceChanged() && trace == old(trace)
      ensures old(option) == Some(OptMainMenu) ==> OnlyTraceChanged() && trace == old(trace) + [MainMenuShown]
      ensures old(option).Some? && old(option) != Some(OptMainMenu) && old(option).value !in validOptions ==>
        OnlyTraceChanged() && trace == old(trace) + [NotInMainMenu(old(option).value)]
      ensures old(option) == Some(OptQuit) ==>
        OnlyTraceChanged() && (OptQuit in validOptions ==> trace == old(trace))
      ensures old(option) == Some(OptSavedMenu) && OptSavedMenu in validOptions ==>
        OnlyTraceChanged() && trace == old(trace) + [SavedCommandsMenuShown]
      ensures old(option) == Some(OptHelp) && OptHelp in validOptions ==>
        OnlyTraceChanged() && trace == old(trace) + [HelpShown]
      ensures old(option) == Some(OptExport) && OptExport in validOptions ==>
        OnlyTraceChanged() && trace == old(trace) + [Exported(ExportFile(old(commands.rows)))]
      ensures old(option) == Some(OptRepeat) && old(option).value in validOptions ==>
        && lastCommand == old(lastCommand)
        && (old(lastCommand).Some? ==> option == old(lastCommand) && commandId.None? && repeatLastCommand)
        && (old(lastCommand).None? ==> trace == old(trace) + [NothingToRepeat] && !repeatLastCommand)
    {
      if option == Some(OptMainMenu) {
        trace := trace + [MainMenuShown];
      } else if option.None? {
      } else if option.value !in validOptions {
        trace := trace + [NotInMainMenu(option.value)];
      } else {
        RunOption();
      }
    }

    /** One turn of the `run_program` loop; every turn makes progress. */
    method Step()
      requires Valid() && option != Some(OptQuit) && !inputEnded
      modifies this, commands, profile
      ensures Valid()
      ensures Measure() < old(Measure())
      ensures validOptions == old(validOptions) + ViewContents.Tags(ViewContents.Catalog)
      ensures validIds == old(validIds) + Positions(old(commands.ViewAll()))
      ensures old(trace) <= trace
    {
      RefreshLists();
      Prompt();
      if inputEnded {
        return;
      }
      Dispatch();
    }

    /** `run_program`: shows the main menu unless an option came with the
        command line, then runs turns until the option is "q". */
    method RunProgram() returns (outcome: Outcome)
      requires Valid() && !inputEnded
      modifies this, commands, profile
      ensures Valid()
      ensures outcome.Exited? <==> !inputEnded
      ensures outcome.Exited? ==> option == Some(OptQuit) && outcome.message == ExitMessage
    {
      if option.None? {
        trace := trace + [MainMenuShown];
      }
      while option != Some(OptQuit) && !inputEnded
        invariant Valid()
        decreases Measure()
      {
        Step();
      }
      if inputEnded {
        return InputExhausted;
      }
      return Exited(ExitMessage);
    }
  }
}
