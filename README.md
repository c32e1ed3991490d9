# CommandSaver core, modelled in Dafny

CommandSaver is a terminal bookmark manager for shell commands. The user
saves commands with a description, then lists, runs, edits, deletes and
exports them by their position in the list. This project models the core of
the program and proves properties of it:

- the main loop (`RunMe.run_program`) and the parser that splits each answer
  into a menu option and an argument (`convert_answer`);
- the prompt, which asks again until an answer is valid or is one of the
  global commands `q`, `b` and `bs` (`InputWindow`);
- the table of saved commands, kept in display order with positions
  1..N (`SavedCommands`);
- the single-row user profile (`UserData`);
- the two look-ups the menu screens make in the menu catalog (`ViewContents`).

Modules, one per source file:

| module | file | form |
|---|---|---|
| `PyText` | (Python built-ins) | `int()` and `str()` on ASCII text, `str.strip()` |
| `InputWindow` | `input_window/input_window.py` | the classifier as a function; the re-prompt loop as a method proved equal to a recursive function |
| `AnswerParser` | `run_me.py` (`convert_answer`) | pure functions over strings |
| `SavedCommandsStore` | `table/saved_commands.py` | the table as a `seq` field of the class `SavedCommands`; each SQL statement as a function on the rows, and each action as a method proved against those functions |
| `UserDataStore` | `table/user_data.py` | the profile row as the class `UserData` |
| `ViewContents` | `visual_design/view_contents.py` | the two loops as methods, proved against a filter function |
| `RunMe` | `run_me.py` | the loop state as the class `Program`; one turn is `Step`, and `RunProgram` loops until "q" |

Conventions used throughout:

- The user's input is a finite sequence of lines. Every question consumes
  lines from its front.
- Running out of lines is Python's `EOFError`. It ends the program with
  `InputExhausted`.
- What the program prints is a trace of `Event`s: the menus shown, the text
  handed to the shell, the exported file.
- The clock (today's date and `time.time()`) is a pair of constructor
  parameters.
- The lists of accepted "yes" and "no" answers are parameters too.

The loop is proved to terminate. Every turn strictly lowers the measure
`8·(lines left) + 4·(single action pending) + 2·(option ≠ q) + (repeat pending) + (input not exhausted)`.

Where the code does something other than what its own comments and
return values suggest, the model follows the code:

- A global command typed at the yes/no question of a delete is dropped.
  `__risky_action_confirmation` returns it
  (`command_saver/table/saved_commands.py:240-244`), but `delete_command`
  (`command_saver/table/saved_commands.py:246-255`) discards that value, and
  `__option_to_delete` never checks for one.
- Option "e" on a position that holds no command does not stop the option.
  `execute_command` returns `ValueError` instead of raising it
  (`command_saver/table/saved_commands.py:305-307`), and `__option_to_execute`
  (`command_saver/run_me.py:449-456`) drops the value, so the turn ends
  normally.
- The new-text question of an edit accepts any text, so a global command
  typed there becomes the new text of the command.
- In single-action mode, the option and the id from the command line are
  joined with no separator, exactly as written (`cs t ls` reads as the
  option `tls`).
- `recent_commands_list` scans only the first `min(len - 1, 7)` popular
  rows, so the last row of the popular list is never added.
- `valid_ids` only grows, so a position freed by a delete is still accepted
  as an id.
- The seed rows follow `utils/default_database.py:53-62`. The tests of the
  default database expect different rows.

## Model

| member | source | states |
|---|---|---|
| PyText.ParseIntOfDecimal | command_saver/input_window/input_window.py:64-68 | `int(str(n)) == n` for every int: the integer conversion reads back what Python writes |
| PyText.DecimalIsCanonical | command_saver/input_window/input_window.py:64-68 | `str(n)` starts with a minus sign exactly when n < 0 and with a digit otherwise, and has no leading zero unless n is 0 |
| InputWindow.GlobalCommandsAreNotNumbers | command_saver/input_window/input_window.py:64-73 | none of "q", "b", "bs" is an int literal, so converting an answer never hides a global command |
| InputWindow.IsTheAnswerValidMeaning | command_saver/input_window/input_window.py:61-93 | an answer leaves the question exactly when it is a global command, whatever the valid answers; an any-text question never rejects and returns the text, or `str(int(text))` for a number; against a list, the answer is valid exactly when its converted value is in the list, and is then that value |
| InputWindow.AnyStringAnswerIsStable | command_saver/input_window/input_window.py:75-85 | giving an any-text answer back to an any-text question returns the same verdict (the number normalisation is idempotent) |
| InputWindow.AnyTextIsNeverRejected | command_saver/input_window/input_window.py:71-85 | an any-text question takes every answer; a global command comes back as itself and any other answer as its normalised text, which is never a global command |
| InputWindow.AnyTextNormalisesNumbers | command_saver/input_window/input_window.py:64-68 | the answer "012" comes back from an any-text question as "12" |
| InputWindow.FirstAcceptedMeaning | command_saver/input_window/input_window.py:34-58 | the answer taken is the verdict on the first line not rejected; every earlier line was rejected, and each one cost one read; the input runs out only when every line is rejected |
| InputWindow.AnyTextTakesOneLine | command_saver/input_window/input_window.py:34-58 | an any-text question is answered by exactly the next line |
| InputWindow.AskInputExample | tests/input_window/test_input_window.py:32-58 | with ["No", "Yes", "012", "b"] and only "Yes" valid, the first question answers "Yes" after 2 reads and the second answers "b" after 2 more |
| InputWindow.ReadAnswer | command_saver/input_window/input_window.py:34-58 | the re-prompt loop returns exactly what `FirstAccepted` specifies: the answer and the number of lines read |
| InputWindow.AskInput | command_saver/input_window/input_window.py:8-58 | an answer from the command line is taken without reading when it is not rejected; otherwise the re-prompt loop runs on the input |
| AnswerParser.LeadingLowercase | command_saver/run_me.py:305-307 | the result is the longest prefix of lower-case ASCII letters (`^[a-z]+`) |
| AnswerParser.TextAfterT | command_saver/run_me.py:322-331 | whatever `([t])(.+)` captures is never empty |
| AnswerParser.TextAfterTMeaning | command_saver/run_me.py:322-331 | the text is found exactly when some "t" is followed by a character other than a line break; it is then everything after the first such "t" up to the next line break or the end |
| AnswerParser.ConvertAnswer | command_saver/run_me.py:299-356 | no option exactly when the answer does not start with a lower-case letter, and then no argument; the option is the maximal leading run of letters; for "t" the argument is the text after the first usable "t"; for any other option the argument is the first number in the answer, kept exactly when it is a valid id |
| AnswerParser.OptionIsLeadingLetters | command_saver/run_me.py:305-312 | when the first k characters are letters and the next is not, the option is those k letters |
| AnswerParser.FirstNumberIsFirstRun | command_saver/run_me.py:333-342 | the number found is the value of the first maximal run of digits |
| AnswerParser.TextArgumentOfOneLine | command_saver/run_me.py:322-331 | on one line, the argument of "t" is everything after the "t", verbatim; a bare "t" has none; the argument is never a global command |
| AnswerParser.ConvertOptionWithAdjacentId | tests/test_run_me.py:26-58 | "a3" gives option "a" and id 3 (valid ids 2, 3, 1) |
| AnswerParser.ConvertOptionWithSpacedId | tests/test_run_me.py:26-58 | "bs 1" gives option "bs" and id 1 |
| AnswerParser.ConvertOptionWithFarId | tests/test_run_me.py:26-58 | "exportall   2" gives option "exportall" and id 2 |
| AnswerParser.ConvertDropsUnknownId | tests/test_run_me.py:26-58 | "sfsf    1002" gives option "sfsf" and no id, 1002 not being a valid id |
| AnswerParser.ConvertRejectsLeadingSign | command_saver/run_me.py:305-321 | "-100setuserdep" and "   " give neither option nor id |
| AnswerParser.ConvertOptionAlone | tests/test_run_me.py:26-58 | "setuserdep" and "b" give that option and no id |
| SavedCommandsStore.Find | command_saver/table/saved_commands.py:158-199 | None exactly when no row holds the position; otherwise the command text of a row at that position |
| SavedCommandsStore.FindInDenseTable | command_saver/table/saved_commands.py:169-185 | in a table with positions 1..N, position k finds the command at index k-1, and positions outside 1..N find nothing |
| SavedCommandsStore.FindInDefaultTable | command_saver/utils/default_database.py:53-62 | in the default table, position 2 holds "git add --all" and positions 100 and -10 hold nothing |
| SavedCommandsStore.DeleteWhereUnique | command_saver/table/saved_commands.py:264-268 | the DELETE removes exactly the one row holding the position |
| SavedCommandsStore.DeleteRenumbers | command_saver/table/saved_commands.py:264-274 | deleting position k removes that row, keeps the earlier rows, and moves every later row down by one; positions 1..N become 1..N-1 |
| SavedCommandsStore.UpdateKeepsPositions | command_saver/table/saved_commands.py:416-426 | an UPDATE by position never moves a row, keeps the positions dense, and changes nothing when no row holds the position |
| SavedCommandsStore.InsertDescIsPermutation | command_saver/table/saved_commands.py:481-498 | inserting into the ordered list adds exactly that row |
| SavedCommandsStore.InsertDescIsSorted | command_saver/table/saved_commands.py:481-498 | inserting into a list in descending key order keeps it in descending order |
| SavedCommandsStore.SortDescIsSortedPermutation | command_saver/table/saved_commands.py:481-528 | `ORDER BY ... DESC` gives the rows in descending key order, and the same rows |
| SavedCommandsStore.SortDescKeepsPositionsDistinct | command_saver/table/saved_commands.py:481-528 | ordering keeps the positions distinct and the set of rows unchanged |
| SavedCommandsStore.TopListsOfDenseTable | command_saver/table/saved_commands.py:481-540 | the three newest and the eight most called rows have no duplicates, and each is a row of the table |
| SavedCommandsStore.ExportLineReadsBack | command_saver/table/saved_commands.py:436-441 | an export line starts with the position in decimal, which reads back as the position, then ", ", and ends with a line break |
| SavedCommandsStore.ReplyTo | command_saver/table/saved_commands.py:236-244 | a confirmation answer comes back as the global command exactly when it is not in the no list and is a global command, and then as that command's text |
| SavedCommandsStore.RiskyOutcome | command_saver/table/saved_commands.py:201-244 | an unknown position is refused with nothing read and nothing changed; the table changes only when the row exists and the first accepted answer is in the yes list; without an answer the table is unchanged; a global command comes back only after a line was read; never more lines are read than there are |
| SavedCommandsStore.SavedCommands.ViewAll | command_saver/table/saved_commands.py:89-118 | every row, once each and in position order |
| SavedCommandsStore.SavedCommands.UpdateCommand | command_saver/table/saved_commands.py:405-426 | only the command text of the row at the position changes |
| SavedCommandsStore.SavedCommands.UpdatePopularity | command_saver/table/saved_commands.py:445-457 | the call count of the row at the position goes up by exactly one; nothing else changes; the table becomes `UpdateWhere(old, id, CountCall)` |
| SavedCommandsStore.SavedCommands.UpdateTimestamp | command_saver/table/saved_commands.py:459-479 | only the last-edited stamp of the row at the position changes, to the time in seconds |
| SavedCommandsStore.SavedCommands.DeleteCommandAction | command_saver/table/saved_commands.py:256-283 | the table becomes `Deleted(old, id)`: the row is gone, and the later rows move down by one |
| SavedCommandsStore.SavedCommands.EditCommandAction | command_saver/table/saved_commands.py:337-363 | reads exactly one line, then stores its normalised text as the new command, with the edit time; without input, nothing changes |
| SavedCommandsStore.SavedCommands.RiskyActionConfirmation | command_saver/table/saved_commands.py:201-244 | its reply, lines read and table are `RiskyOutcome`; spelled out: not found: refused, nothing read, nothing changed; the action runs only on an answer in the yes list (a delete gives `Deleted(old, id)`, an edit reads the next line and gives `Edited`); "no" is refused, a global command comes back, and in every case but a confirmed action the table is unchanged |
| SavedCommandsStore.SavedCommands.DeleteCommand | command_saver/table/saved_commands.py:246-255 | the table and lines read are those of `RiskyOutcome(Delete, ...)`, and it reports only whether the input ran out (the reply is dropped); on an existing row, an answer in the yes list makes the table `Deleted(old, id)` and any other answer leaves it unchanged |
| SavedCommandsStore.SavedCommands.EditCommand | command_saver/table/saved_commands.py:326-336 | reply, lines read and table are those of `RiskyOutcome(Edit(now), ...)`; on an existing row, an answer in the yes list followed by one more line makes the table `Edited(old, id, text of that line, Seconds(now))`; the table changes only on an existing row and an answer in the yes list; a global command comes back after at least one read |
| SavedCommandsStore.SavedCommands.ExecuteCommand | command_saver/table/saved_commands.py:285-324 | text for the terminal runs and touches no row; an unknown position is reported as not found and changes nothing; otherwise the table becomes `UpdateWhere(old, id, CountCall)` (that row's call count goes up by one, nothing else changes) and the row's command runs |
| SavedCommandsStore.SavedCommands.AddNewCommand | command_saver/table/saved_commands.py:365-403 | appends exactly one row at the next position, never called, with the profile's author, created and last edited at the same millisecond; the existing rows are unchanged |
| SavedCommandsStore.SavedCommands.RecentCommandsList | command_saver/table/saved_commands.py:120-156 | the three newest rows come first, then the scanned popular rows not listed yet, in scan order (`AppendNew`); the list has no duplicates, holds exactly those rows, and has at most 3 + 7 entries |
| SavedCommandsStore.SavedCommands.ExportAll | command_saver/table/saved_commands.py:428-443 | one line per row, in position order (`ExportFile`): position, description and command joined by ", " |
| UserDataStore.UserData.Default | command_saver/utils/default_database.py:66-68 | a fresh profile is "admin" of "administration" |
| UserDataStore.UserData.ChangeAuthor | command_saver/table/user_data.py:81-123 | reads one line; a global command comes back and nothing is written; any other answer becomes the user name (which `find_author` then returns); the department never changes |
| UserDataStore.UserData.ChangeAuthorsDepartment | command_saver/table/user_data.py:125-166 | the same for the department; the user name never changes |
| ViewContents.SelectMembers | command_saver/visual_design/view_contents.py:75-79 | an entry is kept exactly when it is in the menu and its tag is available |
| ViewContents.SelectIsSubsequence | command_saver/visual_design/view_contents.py:71-81 | the kept entries keep the menu order: the result embeds into the menu at increasing indices |
| ViewContents.AvailableOptions | command_saver/visual_design/view_contents.py:61-81 | the loop's list is exactly the menu filtered by available tags |
| ViewContents.FindOption | command_saver/visual_design/view_contents.py:83-105 | None exactly when no entry has the tag; otherwise the description of the first entry with it |
| RunMe.IdOptionsCarryNumbers | command_saver/run_me.py:322-356 | the argument of "e", "d", "edit" or "ss" is always a number among the valid ids, never text |
| RunMe.IdAnswerIsIdOrGlobal | command_saver/run_me.py:215-225 | the id question answers with a valid id or a global command; a global command on the first line is taken at once |
| RunMe.Program.constructor | command_saver/run_me.py:76-85 | a command-line option starts single-action mode with that option and its id as text; without one, nothing is pending |
| RunMe.Program.RefreshLists | command_saver/run_me.py:87-104 | appends the catalog tags and the current positions to the two lists; nothing already in them is lost |
| RunMe.Program.GlobalOptionChecker | command_saver/run_me.py:400-421 | true exactly for a global command, which becomes the option with a repeat pending; otherwise nothing changes |
| RunMe.Program.Prompt | command_saver/run_me.py:116-145 | a pending repeat is cleared and nothing is read; after the single action the option becomes "q"; otherwise the next line (or, in single-action mode, the command-line text, with nothing read) is parsed into option and argument |
| RunMe.Program.AskText | command_saver/run_me.py:134-136 | one any-text question: without input the input has ended; otherwise exactly one line is read and its verdict's text comes back |
| RunMe.Program.TakeAnswer | command_saver/run_me.py:133-145 | the option and id become those `ConvertAnswer` gives for the answer, and the loop invariant holds |
| RunMe.Program.ProfileOption | command_saver/run_me.py:178-195 | records the option as the last command and reads one line; without input it stops with the profile unchanged; a global command stops the option, becomes the next option with a repeat pending, and leaves the profile unchanged; any other answer becomes the department ("setuserdep") or the user name ("setuser"), the other field is unchanged, and the option goes on |
| RunMe.Program.TextOptionBranch | command_saver/run_me.py:196-214 | text that came with "t" is used without reading; otherwise exactly one line is read, and no line ends the input; a global command as the text stops the option and becomes the next option with a repeat pending, with nothing run and nothing recorded; any other text goes to the shell (in its normalised form when it was read) and "t" becomes the last command; the table is never touched |
| RunMe.Program.RunText | command_saver/run_me.py:201-214 | a global command as the text stops the option and becomes the next option with a repeat pending, and nothing runs or is recorded; any other text goes to the shell exactly as given and "t" becomes the last command; the table is unchanged |
| RunMe.Program.AskCommandId | command_saver/run_me.py:215-225 | asks for an id among the valid ids: the input runs out exactly when every line is rejected; otherwise the lines up to the first accepted one are consumed and its answer becomes the command id; the option stops exactly when that answer is a global command, which becomes the next option with a repeat pending; otherwise the id is a valid number |
| RunMe.Program.TakeIdAnswer | command_saver/run_me.py:219-224 | the answer becomes the command id; the option stops exactly when it is a global command, which becomes the next option with a repeat pending |
| RunMe.Program.RunOnCommand | command_saver/run_me.py:227-265 | records the option as the last command and leaves `RanOnCommand`: "e" makes the table `UpdateWhere(old, id, CountCall)` and hands the row's command to the shell, and on an unknown position changes nothing and goes on (the not-found result is dropped); "d" leaves the table and the input of `RiskyOutcome(Delete, ...)` and drops the reply; "edit" leaves `EditedOrLeft`; "ss" shows the command and changes nothing |
| RunMe.Program.IdOptionBranch | command_saver/run_me.py:215-265 | with an id given, `RanOnCommand` on it; otherwise the id question runs first: running out of input or a global command stops the option with the table, trace and last command unchanged (a global command becoming the next option with a repeat pending), and a valid id is kept and `RanOnCommand` runs on it with the rest of the input |
| RunMe.Program.EditOption | command_saver/run_me.py:479-495 | leaves `EditedOrLeft`: the table and lines read of `RiskyOutcome(Edit(now), ...)`; on an existing row an answer in the yes list followed by a line makes the table `Edited(old, id, text of that line, Seconds(now))`; a global command at the confirmation stops the option and becomes the next option with a repeat pending; running out of input stops it |
| RunMe.Program.ChangeProfile | command_saver/run_me.py:523-551 | reads one line; without input or with a global command the profile is unchanged; any other answer becomes the department (for "setuserdep") or the user name (for "setuser"), and the other field is unchanged |
| RunMe.Program.ProfileChangeEnds | command_saver/run_me.py:531-551 | running out of input or a global command stops the option, a global command becoming the next option with a repeat pending; a written profile lets the option go on |
| RunMe.Program.AddOption | command_saver/run_me.py:267-274 | records "a" as the last command; no input, or only one line, stops it with the table unchanged; a global command as the first or second answer stops it, becomes the next option with a repeat pending and leaves the table unchanged; two other answers append exactly one row holding their normalised texts, the profile's user name and the clock, at the next position; the table changes only then |
| RunMe.Program.AskTextOrLeave | command_saver/run_me.py:359-397 | reads one line; without input the input has ended; a global command becomes the next option with a repeat pending and gives no text; any other line gives its normalised text and leaves the option alone |
| RunMe.Program.RepeatLast | command_saver/run_me.py:281-295 | with a recorded command: it becomes the option, the id is cleared and a repeat is pending; otherwise only a notice |
| RunMe.Program.RunOption | command_saver/run_me.py:165-279 | "q", "bs", "help" and "exportall" change nothing but the trace, adding nothing, the menu, the help page or the export of the whole table (`ExportFile`); "r" repeats the last command, asking afresh for its id; the trace only grows |
| RunMe.Program.Dispatch | command_saver/run_me.py:149-295 | no option, "q", "b" and an option not in the menu change nothing but the trace (table, profile, last command, option, id and input unchanged): "b" shows the main menu before the menu check and an unknown option shows an error; "bs", "help" and "exportall" only add their screen or the export of the whole table; "r" repeats the last command; the trace only grows |
| RunMe.Program.Step | command_saver/run_me.py:116-295 | one turn keeps the loop invariant and strictly lowers the measure; it appends the catalog tags and the current positions to the two lists, and the trace only grows |
| RunMe.Program.RunProgram | command_saver/run_me.py:106-297 | the loop stops; it ends with "CommandSaver program exited." exactly when the input did not run out, and the option is then "q" |

## Left out

- Storage failures: `sqlite3.Error`, the error-checking wrappers and `VACUUM`
  are not modelled, so no action ends with a storage error.
- `os.system`: the shell is not run. Its text is recorded as a `Shell` event,
  and its exit status is not modelled.
- Rendering and logging: menus, tables, colours and messages are not printed.
  Those steps appear only as events (`MainMenuShown`, `FullCommandShown`, ...).
- `int()` is modelled on ASCII. Non-ASCII digits and non-ASCII white space
  are not modelled.
- SQL `LIKE` on a position is modelled as equality.
- `ORDER BY ... DESC` is modelled with ties kept in table order. SQLite
  leaves the order of ties open.
- The clock is fixed for a run: `date.today()` and `time.time()` are
  parameters.
- `valid_yes`, `valid_no` and `global_commands` are not among the files
  modelled. The yes and no lists are parameters, and the global commands
  are "q", "b" and "bs", the three that `__is_the_answer_valid` names.
- The schema's `command_id` column is not modelled. Rows are identified only
  by their dense position `num_row`.
- `num_row` is an assumption of the model. The `CREATE TABLE` statement
  (`command_saver/utils/default_database.py:118-126`) has no such column, and
  neither INSERT (`command_saver/utils/default_database.py:127-129`,
  `command_saver/table/saved_commands.py:393-395`) sets it. The model gives
  the rows the positions 1..N that the tests expect
  (`tests/table/test_saved_commands.py:163-178`): the default table holds
  1..4, and an added row takes the next position.
- CPython's limit of 4300 digits on `int()` is not modelled. Past it,
  `ask_input` keeps the raw text where the model writes the number in
  canonical form, and `int(command_id)` in `convert_answer`
  (`command_saver/run_me.py:341`) raises an uncaught `ValueError` where the
  model reads the number.
- RunMe.Program.TextOptionBranch: the id handed to `execute_command` on the
  text path is not modelled, since that path never reads it.
- `command_saver/run_me.py:212-213`: setting "q" when `one_action_only` is
  still set is not modelled. The flag is already cleared at that point, so
  the line can never run.
- `fetch_one_full_command`: showing one command is only the event
  `FullCommandShown`. The query behind it is not modelled.
- Step: its contract states the invariant, the measure, the two refreshed
  lists and that the trace only grows. What the option of a turn does is
  stated by `Prompt`, `Dispatch`, `RunOption` and the branch methods, not
  composed into one contract for the whole turn.
- Dispatch and RunOption: for "setuser", "setuserdep", "t", "e", "d", "edit",
  "ss" and "a", the effect is stated by the branch method each one calls and
  is not repeated in their own contracts.
- Argument parsing by `argparse` is not modelled. The constructor receives
  the option and the id as optional strings.
- `command_saver/table/menu_options.py` is not part of this model. The menu
  catalog is the constant from `command_saver/constants.py:15-30`.
