/** The `saved_commands` table and the actions the program runs on it. The
    table is kept in display order: the row at index i has position
    `num_row` i + 1, and every action that changes the table keeps it so. */
module SavedCommandsStore {
  import opened Wrappers
  import opened PyText
  import opened InputWindow
  import UserDataStore

  /** A time stamp as stored: adding a command stores `int(time.time() * 1000)`
      (whole milliseconds), editing one stores `time.time()` itself (seconds). */
  datatype Stamp = Millis(ms: int) | Seconds(s: real)

  /** One row of the table. */
  datatype SavedCommand = SavedCommand(
    numRow: int,
    description: string,
    command: string,
    dateCreated: string,
    createdAt: int,
    timesCalled: int,
    author: string,
    lastEdited: Stamp)

  /** What the listing queries select: `num_row, command_description, saved_command`. */
  datatype CommandView = CommandView(numRow: int, description: string, command: string)

  function View(row: SavedCommand): CommandView {
    CommandView(row.numRow, row.description, row.command)
  }

  function Views(rows: seq<SavedCommand>): seq<CommandView> {
    seq(|rows|, i requires 0 <= i < |rows| => View(rows[i]))
  }

  /** Display positions run 1, 2, ... in table order, without gaps. */
  predicate Dense(rows: seq<SavedCommand>) {
    forall i :: 0 <= i < |rows| ==> rows[i].numRow == i + 1
  }

  predicate Distinct<T(==)>(s: seq<T>) {
    forall i, j :: 0 <= i < j < |s| ==> s[i] != s[j]
  }

  /** No two rows share a position. */
  predicate DistinctPositions(rows: seq<SavedCommand>) {
    forall i, j :: 0 <= i < j < |rows| ==> rows[i].numRow != rows[j].numRow
  }

  // ----- Queries -----

  /** `SELECT saved_command FROM saved_commands WHERE num_row LIKE id`: the
      command text of a row at position `id`, None when there is none. */
  function Find(rows: seq<SavedCommand>, id: int): (r: Option<string>)
    ensures r.None? <==> forall i :: 0 <= i < |rows| ==> rows[i].numRow != id
    ensures r.Some? ==> exists i :: 0 <= i < |rows| && rows[i].numRow == id && rows[i].command == r.value
  {
    if rows == [] then None
    else if rows[0].numRow == id then Some(rows[0].command)
    else Find(rows[1..], id)
  }

  /** In a dense table the command at position `id` is the one at index
      id - 1, and every position outside 1..N finds nothing. */
  lemma FindInDenseTable(rows: seq<SavedCommand>, id: int)
    requires Dense(rows)
    ensures Find(rows, id) == if 1 <= id <= |rows| then Some(rows[id - 1].command) else None
  {
    if 1 <= id <= |rows| {
      assert rows[id - 1].numRow == id;
      var i :| 0 <= i < |rows| && rows[i].numRow == id && rows[i].command == Find(rows, id).value;
      assert i == id - 1;
    }
  }

  // ----- Deleting with renumbering -----

  /** `DELETE FROM saved_commands WHERE num_row = k`. */
  function DeleteWhere(rows: seq<SavedCommand>, k: int): seq<SavedCommand> {
    if rows == [] then []
    else (if rows[0].numRow == k then [] else [rows[0]]) + DeleteWhere(rows[1..], k)
  }

  /** `UPDATE saved_commands SET num_row = num_row - 1 WHERE num_row > k`. */
  function ShiftDown(rows: seq<SavedCommand>, k: int): seq<SavedCommand> {
    seq(|rows|, i requires 0 <= i < |rows| =>
      if rows[i].numRow > k then rows[i].(numRow := rows[i].numRow - 1) else rows[i])
  }

  /** The table after `__delete_command_action` on position k. */
  function Deleted(rows: seq<SavedCommand>, k: int): seq<SavedCommand> {
    ShiftDown(DeleteWhere(rows, k), k)
  }

  lemma {:induction false} DeleteWhereAbsent(rows: seq<SavedCommand>, k: int)
    requires forall i :: 0 <= i < |rows| ==> rows[i].numRow != k
    ensures DeleteWhere(rows, k) == rows
    decreases |rows|
  {
    if rows != [] {
      DeleteWhereAbsent(rows[1..], k);
    }
  }

  /** Deleting a position held by exactly one row removes exactly that row. */
  lemma {:induction false} DeleteWhereUnique(rows: seq<SavedCommand>, k: int, j: nat)
    requires j < |rows| && rows[j].numRow == k
    requires forall i :: 0 <= i < |rows| && i != j ==> rows[i].numRow != k
    ensures DeleteWhere(rows, k) == rows[..j] + rows[j + 1..]
    decreases |rows|
  {
    if j == 0 {
      DeleteWhereAbsent(rows[1..], k);
    } else {
      DeleteWhereUnique(rows[1..], k, j - 1);
      assert rows[..j] == [rows[0]] + rows[1..][..j - 1];
      assert rows[j + 1..] == rows[1..][j..];
    }
  }

  /** Deleting position k of a dense table removes that row, leaves the rows
      before it as they were and moves every later row down by exactly one:
      a dense 1..N table becomes a dense 1..N-1 table. */
  lemma DeleteRenumbers(rows: seq<SavedCommand>, k: int)
    requires Dense(rows) && 1 <= k <= |rows|
    ensures var r := Deleted(rows, k);
      && |r| == |rows| - 1
      && Dense(r)
      && (forall i :: 0 <= i < k - 1 ==> r[i] == rows[i])
      && (forall i :: k - 1 <= i < |r| ==> r[i] == rows[i + 1].(numRow := i + 1))
  {
    DeleteWhereUnique(rows, k, k - 1);
    var kept := rows[..k - 1] + rows[k..];
    assert forall i :: 0 <= i < k - 1 ==> kept[i] == rows[i];
    assert forall i :: k - 1 <= i < |kept| ==> kept[i] == rows[i + 1];
  }

  // ----- Updating one row -----

  /** The three single-row updates: a call counted, new command text, a new
      last-edited stamp. */
  datatype Change = CountCall | SetCommand(text: string) | SetLastEdited(at: Stamp)

  function Apply(row: SavedCommand, change: Change): SavedCommand {
    match change
    case CountCall => row.(timesCalled := row.timesCalled + 1)
    case SetCommand(text) => row.(command := text)
    case SetLastEdited(at) => row.(lastEdited := at)
  }

  /** `UPDATE saved_commands SET ... WHERE num_row = k`. */
  function UpdateWhere(rows: seq<SavedCommand>, k: int, change: Change): seq<SavedCommand> {
    seq(|rows|, i requires 0 <= i < |rows| => if rows[i].numRow == k then Apply(rows[i], change) else rows[i])
  }

  /** The table after editing position k: new text, then the new stamp. */
  function Edited(rows: seq<SavedCommand>, k: int, text: string, at: Stamp): seq<SavedCommand> {
    UpdateWhere(UpdateWhere(rows, k, SetCommand(text)), k, SetLastEdited(at))
  }

  /** An update never moves a row: a dense table stays dense, and no row
      changes when no row holds the position. */
  lemma UpdateKeepsPositions(rows: seq<SavedCommand>, k: int, change: Change)
    ensures var r := UpdateWhere(rows, k, change);
      && |r| == |rows|
      && (forall i :: 0 <= i < |rows| ==> r[i].numRow == rows[i].numRow)
      && (Dense(rows) ==> Dense(r))
      && (Find(rows, k).None? ==> r == rows)
  {
    var r := UpdateWhere(rows, k, change);
    if Find(rows, k).None? {
      assert forall i :: 0 <= i < |rows| ==> r[i] == rows[i];
    }
  }

  // ----- Listing orders -----

  datatype SortKey = ByCreation | ByPopularity

  function Key(row: SavedCommand, key: SortKey): int {
    match key
    case ByCreation => row.createdAt
    case ByPopularity => row.timesCalled
  }

  predicate SortedDesc(rows: seq<SavedCommand>, key: SortKey) {
    forall i, j :: 0 <= i < j < |rows| ==> Key(rows[i], key) >= Key(rows[j], key)
  }

  /** Puts `x` in front of the first row whose key is not larger. */
  function InsertDesc(x: SavedCommand, rows: seq<SavedCommand>, key: SortKey): (r: seq<SavedCommand>)
    ensures |r| == |rows| + 1
  {
    if rows == [] || Key(rows[0], key) <= Key(x, key) then [x] + rows
    else [rows[0]] + InsertDesc(x, rows[1..], key)
  }

  /** `ORDER BY <key> DESC`; rows with equal keys keep their table order. */
  function SortDesc(rows: seq<SavedCommand>, key: SortKey): (r: seq<SavedCommand>)
    ensures |r| == |rows|
  {
    if rows == [] then [] else InsertDesc(rows[0], SortDesc(rows[1..], key), key)
  }

  lemma {:induction false} InsertDescIsPermutation(x: SavedCommand, rows: seq<SavedCommand>, key: SortKey)
    ensures multiset(InsertDesc(x, rows, key)) == multiset(rows) + multiset{x}
    decreases |rows|
  {
    if rows != [] && Key(rows[0], key) > Key(x, key) {
      InsertDescIsPermutation(x, rows[1..], key);
      assert rows == [rows[0]] + rows[1..];
    }
  }

  lemma InsertDescMembers(x: SavedCommand, rows: seq<SavedCommand>, key: SortKey)
    ensures forall y :: y in InsertDesc(x, rows, key) <==> y == x || y in rows
  {
    InsertDescIsPermutation(x, rows, key);
  }

  lemma PrependSorted(y: SavedCommand, rows: seq<SavedCommand>, key: SortKey)
    requires SortedDesc(rows, key)
    requires forall z :: z in rows ==> Key(y, key) >= Key(z, key)
    ensures SortedDesc([y] + rows, key)
  {
    var r := [y] + rows;
    forall i, j | 0 <= i < j < |r|
      ensures Key(r[i], key) >= Key(r[j], key)
    {
      assert r[j] == rows[j - 1];
      if i > 0 {
        assert r[i] == rows[i - 1];
      } else {
        assert r[j] in rows;
      }
    }
  }

  lemma {:induction false} InsertDescIsSorted(x: SavedCommand, rows: seq<SavedCommand>, key: SortKey)
    requires SortedDesc(rows, key)
    ensures SortedDesc(InsertDesc(x, rows, key), key)
    decreases |rows|
  {
    if rows == [] || Key(rows[0], key) <= Key(x, key) {
      forall z | z in rows
        ensures Key(x, key) >= Key(z, key)
      {
        var j :| 0 <= j < |rows| && rows[j] == z;
        assert Key(rows[0], key) >= Key(rows[j], key);
      }
      PrependSorted(x, rows, key);
    } else {
      var rest := InsertDesc(x, rows[1..], key);
      InsertDescIsSorted(x, rows[1..], key);
      InsertDescMembers(x, rows[1..], key);
      forall y | y in rest
        ensures Key(rows[0], key) >= Key(y, key)
      {
        if y != x {
          var j :| 0 <= j < |rows[1..]| && rows[1..][j] == y;
          assert rows[j + 1] == y;
        }
      }
      PrependSorted(rows[0], rest, key);
    }
  }

  /** The listing order is sorted by the key, descending, and holds every row
      of the table exactly as often as the table does. */
  lemma {:induction false} SortDescIsSortedPermutation(rows: seq<SavedCommand>, key: SortKey)
    ensures SortedDesc(SortDesc(rows, key), key)
    ensures multiset(SortDesc(rows, key)) == multiset(rows)
    decreases |rows|
  {
    if rows != [] {
      SortDescIsSortedPermutation(rows[1..], key);
      InsertDescIsSorted(rows[0], SortDesc(rows[1..], key), key);
      InsertDescIsPermutation(rows[0], SortDesc(rows[1..], key), key);
      assert rows == [rows[0]] + rows[1..];
    }
  }

  lemma {:induction false} InsertDescKeepsPositionsDistinct(x: SavedCommand, rows: seq<SavedCommand>, key: SortKey)
    requires DistinctPositions(rows)
    requires forall y :: y in rows ==> y.numRow != x.numRow
    ensures DistinctPositions(InsertDesc(x, rows, key))
    ensures forall y :: y in InsertDesc(x, rows, key) <==> y == x || y in rows
    decreases |rows|
  {
    if rows != [] && Key(rows[0], key) > Key(x, key) {
      var rest := InsertDesc(x, rows[1..], key);
      InsertDescKeepsPositionsDistinct(x, rows[1..], key);
      assert forall y :: y in rows <==> y == rows[0] || y in rows[1..];
      forall y | y in rest
        ensures y.numRow != rows[0].numRow
      {
        if y != x {
          var j :| 0 <= j < |rows[1..]| && rows[1..][j] == y;
          assert rows[j + 1] == y;
        }
      }
      var r := [rows[0]] + rest;
      forall i, j | 0 <= i < j < |r|
        ensures r[i].numRow != r[j].numRow
      {
        if i == 0 {
          assert r[j] == rest[j - 1] && r[j] in rest;
        } else {
          assert r[i] == rest[i - 1] && r[j] == rest[j - 1];
        }
      }
    }
  }

  lemma {:induction false} SortDescKeepsPositionsDistinct(rows: seq<SavedCommand>, key: SortKey)
    requires DistinctPositions(rows)
    ensures DistinctPositions(SortDesc(rows, key))
    ensures forall y :: y in SortDesc(rows, key) <==> y in rows
    decreases |rows|
  {
    if rows != [] {
      var rest := SortDesc(rows[1..], key);
      SortDescKeepsPositionsDistinct(rows[1..], key);
      assert forall y :: y in rows <==> y == rows[0] || y in rows[1..];
      forall y | y in rest
        ensures y.numRow != rows[0].numRow
      {
        var j :| 0 <= j < |rows[1..]| && rows[1..][j] == y;
        assert rows[j + 1] == y;
      }
      InsertDescKeepsPositionsDistinct(rows[0], rest, key);
    }
  }

  /** `__fetch_top_three_recent`: the three newest rows (by creation stamp). */
  function TopRecent(rows: seq<SavedCommand>): seq<CommandView> {
    Views(SortDesc(rows, ByCreation))[..Min(3, |rows|)]
  }

  /** `__fetch_top_eight_frequent`: the eight most called rows. */
  function TopFrequent(rows: seq<SavedCommand>): seq<CommandView> {
    Views(SortDesc(rows, ByPopularity))[..Min(8, |rows|)]
  }

  lemma ViewsOfDistinctPositions(rows: seq<SavedCommand>)
    requires DistinctPositions(rows)
    ensures Distinct(Views(rows))
  {
  }

  /** Both fetched lists of a dense table list no row twice, and every entry
      is the view of a row of the table. */
  lemma TopListsOfDenseTable(rows: seq<SavedCommand>)
    requires Dense(rows)
    ensures Distinct(TopRecent(rows)) && Distinct(TopFrequent(rows))
    ensures forall v :: v in TopRecent(rows) ==> exists i :: 0 <= i < |rows| && View(rows[i]) == v
    ensures forall v :: v in TopFrequent(rows) ==> exists i :: 0 <= i < |rows| && View(rows[i]) == v
  {
    assert DistinctPositions(rows);
    SortDescKeepsPositionsDistinct(rows, ByCreation);
    SortDescKeepsPositionsDistinct(rows, ByPopularity);
    SortDescIsSortedPermutation(rows, ByCreation);
    SortDescIsSortedPermutation(rows, ByPopularity);
    ViewsOfDistinctPositions(SortDesc(rows, ByCreation));
    ViewsOfDistinctPositions(SortDesc(rows, ByPopularity));
    forall v | v in TopRecent(rows)
      ensures exists i :: 0 <= i < |rows| && View(rows[i]) == v
    {
      var sorted := SortDesc(rows, ByCreation);
      var j :| 0 <= j < Min(3, |rows|) && Views(sorted)[j] == v;
      assert sorted[j] in sorted;
      var i :| 0 <= i < |rows| && rows[i] == sorted[j];
      assert View(rows[i]) == v;
    }
    forall v | v in TopFrequent(rows)
      ensures exists i :: 0 <= i < |rows| && View(rows[i]) == v
    {
      var sorted := SortDesc(rows, ByPopularity);
      var j :| 0 <= j < Min(8, |rows|) && Views(sorted)[j] == v;
      assert sorted[j] in sorted;
      var i :| 0 <= i < |rows| && rows[i] == sorted[j];
      assert View(rows[i]) == v;
    }
  }

  /** How many entries of the popular list `recent_commands_list` looks at:
      `len - 1` when that is at most 7, else 7; none for an empty list. */
  function PopularScanned(n: nat): nat {
    if n == 0 then 0 else Min(n - 1, 7)
  }

  /** Appends the entries of `xs` that are not listed yet, in the order of
      `xs`: the first occurrence of each entry is kept. */
  function AppendNew<T(==)>(acc: seq<T>, xs: seq<T>): seq<T>
    decreases |xs|
  {
    if xs == [] then acc
    else
      var before := AppendNew(acc, xs[..|xs| - 1]);
      if xs[|xs| - 1] in before then before else before + [xs[|xs| - 1]]
  }

  // ----- Export -----

  /** One line of the export file: the three selected fields joined by ", ". */
  function ExportLine(v: CommandView): string {
    IntToDecimal(v.numRow) + ", " + v.description + ", " + v.command + "\n"
  }

  /** The lines `export_all` writes for a table: one per row, in position order. */
  function ExportFile(rows: seq<SavedCommand>): seq<string> {
    seq(|rows|, i requires 0 <= i < |rows| => ExportLine(View(rows[i])))
  }

  /** An export line starts with the position written in decimal, which reads
      back as that position, followed by ", "; it ends with the line break. */
  lemma ExportLineReadsBack(v: CommandView)
    ensures var line := ExportLine(v); var k := |IntToDecimal(v.numRow)|;
      && k + 3 <= |line|
      && ParseInt(line[..k]) == Some(v.numRow)
      && line[k..k + 2] == ", "
      && line[|line| - 1] == '\n'
  {
    var line := ExportLine(v);
    var k := |IntToDecimal(v.numRow)|;
    assert line[..k] == IntToDecimal(v.numRow);
    ParseIntOfDecimal(v.numRow);
  }

  // ----- Outcomes -----

  /** What a confirmed action returns to its caller: `ValueError` (not found,
      or declined), a global command, `None`, or the input ended first. */
  datatype Reply = Refused | LeftWith(token: string) | Finished | NoAnswer

  /** The two destructive actions that need a confirmation. */
  datatype RiskyAction = Delete | Edit(now: real)

  /** What `__risky_action_confirmation` returns once the confirmation is
      answered and the action (if any) is done: `ValueError` on an answer in
      the no list, the token on a global command, `None` otherwise. */
  function ReplyTo(answer: Value, no: seq<Value>): (r: Reply)
    ensures r.LeftWith? <==> answer !in no && IsGlobal(answer)
    ensures r.LeftWith? ==> r.token in GlobalCommands && r.token == answer.s
  {
    if answer in no then Refused
    else if IsGlobal(answer) then LeftWith(answer.s)
    else Finished
  }

  /** Everything a confirmed action leaves behind: its reply, the input lines
      it read and the table. */
  datatype Confirmed = Confirmed(reply: Reply, linesRead: nat, rows: seq<SavedCommand>)

  /** The outcome of `__risky_action_confirmation` on the table `rows`: an
      unknown position is refused without a question; otherwise the first
      accepted answer decides, and only an answer in the yes list runs the
      action (a delete, or an edit that reads the new text from the next
      line). */
  function RiskyOutcome(action: RiskyAction, rows: seq<SavedCommand>, id: int, lines: seq<string>,
                        yes: seq<Value>, no: seq<Value>): (o: Confirmed)
    ensures o.linesRead <= |lines|
    ensures o.reply.LeftWith? ==> 0 < o.linesRead && o.reply.token in GlobalCommands
    ensures Find(rows, id).None? ==> o == Confirmed(Refused, 0, rows)
    ensures o.rows != rows ==>
      && Find(rows, id).Some?
      && FirstAccepted(OneOf(yes + no), lines).Answered?
      && FirstAccepted(OneOf(yes + no), lines).answer in yes
    ensures o.reply == NoAnswer ==> o.rows == rows
  {
    if Find(rows, id).None? then Confirmed(Refused, 0, rows)
    else match FirstAccepted(OneOf(yes + no), lines)
      case InputEnded => Confirmed(NoAnswer, 0, rows)
      case Answered(answer, n) =>
        if answer !in yes then Confirmed(ReplyTo(answer, no), n, rows)
        else match action
          case Delete => Confirmed(ReplyTo(answer, no), n, Deleted(rows, id))
          case Edit(now) =>
            if n == |lines| then Confirmed(NoAnswer, n, rows)
            else Confirmed(ReplyTo(answer, no), n + 1,
                           Edited(rows, id, Show(IsTheAnswerValid(AnyString, lines[n]).answer), Seconds(now)))
  }

  /** What `execute_command` hands to `os.system`, or `ValueError` when the
      position holds no command. */
  datatype ExecuteResult = Ran(text: string) | NotFound

  /** `int(seconds * 1000)`: truncation toward zero. */
  function TruncMillis(seconds: real): int {
    var x := seconds * 1000.0;
    if x >= 0.0 then x.Floor else -((-x).Floor)
  }

  /** The default table of a fresh database, created at `nowMillis` on `today`. */
  function DefaultTable(today: string, nowMillis: int): seq<SavedCommand> {
    [ SavedCommand(1, "Check git status", "git status", today, nowMillis, 2, UserDataStore.DefaultUsername, Millis(nowMillis)),
      SavedCommand(2, "Add all git command", "git add --all", today, nowMillis, 0, UserDataStore.DefaultUsername, Millis(nowMillis)),
      SavedCommand(3, "Git log", "git log --oneline", today, nowMillis, 4, UserDataStore.DefaultUsername, Millis(nowMillis)),
      SavedCommand(4, "Hello world!", "echo \"Hello world!\"", today, nowMillis, 5, UserDataStore.DefaultUsername, Millis(nowMillis)) ]
  }

  /** Position 2 of the default table holds `git add --all`; positions 100
      and -10 hold nothing. */
  lemma FindInDefaultTable(today: string, nowMillis: int)
    ensures Find(DefaultTable(today, nowMillis), 2) == Some("git add --all")
    ensures Find(DefaultTable(today, nowMillis), 100).None?
    ensures Find(DefaultTable(today, nowMillis), -10).None?
  {
    var rows := DefaultTable(today, nowMillis);
    assert Dense(rows);
    FindInDenseTable(rows, 2);
    FindInDenseTable(rows, 100);
    FindInDenseTable(rows, -10);
  }

  /** The table, as the program's actions see and change it. */
  class SavedCommands {
    var rows: seq<SavedCommand>

    predicate Valid()
      reads this
    {
      Dense(rows)
    }

    constructor (initial: seq<SavedCommand>)
      requires Dense(initial)
      ensures Valid() && rows == initial
    {
      rows := initial;
    }

    /** `view_all_saved_commands`: every row, in position order. */
    function ViewAll(): (r: seq<CommandView>)
      reads this
      ensures |r| == |rows| && forall i :: 0 <= i < |r| ==> r[i] == View(rows[i])
      ensures Valid() ==> forall i, j :: 0 <= i < j < |r| ==> r[i].numRow < r[j].numRow
    {
      Views(rows)
    }

    /** `__update_command_method`: new text for the row at position `id`;
        nothing else changes. */
    method UpdateCommand(id: int, text: string)
      requires Valid()
      modifies this
      ensures Valid()
      ensures |rows| == |old(rows)|
      ensures forall i :: 0 <= i < |rows| ==>
        rows[i] == if i == id - 1 then old(rows)[i].(command := text) else old(rows)[i]
    {
      UpdateKeepsPositions(rows, id, SetCommand(text));
      rows := UpdateWhere(rows, id, SetCommand(text));
    }

    /** `__update_popularity`: one more call counted for position `id`. */
    method UpdatePopularity(id: int)
      requires Valid()
      modifies this
      ensures Valid()
      ensures |rows| == |old(rows)|
      ensures forall i :: 0 <= i < |rows| ==>
        rows[i] == if i == id - 1 then old(rows)[i].(timesCalled := old(rows)[i].timesCalled + 1) else old(rows)[i]
      ensures rows == UpdateWhere(old(rows), id, CountCall)
    {
      UpdateKeepsPositions(rows, id, CountCall);
      rows := UpdateWhere(rows, id, CountCall);
    }

    /** `__update_timestamp`: position `id` was last edited `now` (seconds). */
    method UpdateTimestamp(id: int, now: real)
      requires Valid()
      modifies this
      ensures Valid()
      ensures |rows| == |old(rows)|
      ensures forall i :: 0 <= i < |rows| ==>
        rows[i] == if i == id - 1 then old(rows)[i].(lastEdited := Seconds(now)) else old(rows)[i]
    {
      UpdateKeepsPositions(rows, id, SetLastEdited(Seconds(now)));
      rows := UpdateWhere(rows, id, SetLastEdited(Seconds(now)));
    }

    /** `__delete_command_action`: the DELETE and the renumbering UPDATE. */
    method DeleteCommandAction(id: int)
      requires Valid() && Find(rows, id).Some?
      modifies this
      ensures Valid()
      ensures rows == Deleted(old(rows), id)
      ensures |rows| == |old(rows)| - 1
      ensures forall i :: 0 <= i < id - 1 ==> rows[i] == old(rows)[i]
      ensures forall i :: id - 1 <= i < |rows| ==> rows[i] == old(rows)[i + 1].(numRow := i + 1)
    {
      FindInDenseTable(rows, id);
      DeleteRenumbers(rows, id);
      rows := DeleteWhere(rows, id);
      rows := ShiftDown(rows, id);
    }

    /** `__edit_command_action`: asks for the new text (any text; a global
        command is taken as text too) and stores it with the edit time. */
    method EditCommandAction(id: int, lines: seq<string>, now: real) returns (ended: bool, linesRead: nat)
      requires Valid()
      modifies this
      ensures Valid()
      ensures linesRead <= |lines|
      ensures ended <==> lines == []
      ensures ended ==> rows == old(rows) && linesRead == 0
      ensures !ended ==>
        && linesRead == 1
        && rows == Edited(old(rows), id, Show(IsTheAnswerValid(AnyString, lines[0]).answer), Seconds(now))
    {
      AnyTextTakesOneLine(lines);
      var asked := AskInput(AnyString, lines, None);
      if asked.InputEnded? {
        return true, 0;
      }
      UpdateCommand(id, Show(asked.answer));
      UpdateTimestamp(id, now);
      return false, asked.linesRead;
    }

    /** `__risky_action_confirmation`: finds the command, asks for a yes or
        no, runs the action on yes, then answers `ValueError` on no, the
        token on a global command and `None` otherwise. */
    method RiskyActionConfirmation(action: RiskyAction, id: int, lines: seq<string>, yes: seq<Value>, no: seq<Value>)
      returns (reply: Reply, linesRead: nat)
      requires Valid()
      modifies this
      ensures Valid()
      ensures Confirmed(reply, linesRead, rows) == RiskyOutcome(action, old(rows), id, lines, yes, no)
      ensures linesRead <= |lines|
      ensures reply.LeftWith? ==> 0 < linesRead
      ensures Find(old(rows), id).None? ==> reply == Refused && linesRead == 0 && rows == old(rows)
      ensures Find(old(rows), id).Some? ==>
        var confirmation := FirstAccepted(OneOf(yes + no), lines);
        && (confirmation.InputEnded? ==> reply == NoAnswer && rows == old(rows))
        && (confirmation.Answered? && confirmation.answer !in yes ==>
              rows == old(rows) && linesRead == confirmation.linesRead &&
              reply == (if confirmation.answer in no then Refused
                        else if IsGlobal(confirmation.answer) then LeftWith(confirmation.answer.s)
                        else Finished))
        && (confirmation.Answered? && confirmation.answer in yes && action.Delete? ==>
              rows == Deleted(old(rows), id) && linesRead == confirmation.linesRead &&
              reply == (if confirmation.answer in no then Refused
                        else if IsGlobal(confirmation.answer) then LeftWith(confirmation.answer.s)
                        else Finished))
        && (confirmation.Answered? && confirmation.answer in yes && action.Edit? ==>
              var rest := lines[confirmation.linesRead..];
              && (rest == [] ==> reply == NoAnswer && rows == old(rows))
              && (rest != [] ==>
                    rows == Edited(old(rows), id, Show(IsTheAnswerValid(AnyString, rest[0]).answer), Seconds(action.now)) &&
                    linesRead == confirmation.linesRead + 1 &&
                    reply == (if confirmation.answer in no then Refused
                              else if IsGlobal(confirmation.answer) then LeftWith(confirmation.answer.s)
                              else Finished)))
    {
      var command := Find(rows, id);
      if command.None? {
        return Refused, 0;
      }
      FirstAcceptedMeaning(OneOf(yes + no), lines);
      var confirmation := AskInput(OneOf(yes + no), lines, None);
      if confirmation.InputEnded? {
        return NoAnswer, 0;
      }
      linesRead := confirmation.linesRead;
      var answer := confirmation.answer;
      if answer in yes {
        match action {
          case Delete =>
            DeleteCommandAction(id);
          case Edit(now) =>
            var ended, more := EditCommandAction(id, lines[linesRead..], now);
            if ended {
              return NoAnswer, linesRead;
            }
            linesRead := linesRead + more;
        }
      }
      if answer in no {
        return Refused, linesRead;
      }
      if IsGlobal(answer) {
        return LeftWith(answer.s), linesRead;
      }
      return Finished, linesRead;
    }

    /** `delete_command`: the confirmed delete; its reply is dropped. */
    method DeleteCommand(id: int, lines: seq<string>, yes: seq<Value>, no: seq<Value>)
      returns (ended: bool, linesRead: nat)
      requires Valid()
      modifies this
      ensures Valid()
      ensures var o := RiskyOutcome(Delete, old(rows), id, lines, yes, no);
        rows == o.rows && linesRead == o.linesRead && (ended <==> o.reply == NoAnswer)
      ensures linesRead <= |lines|
      ensures rows != old(rows) ==>
        && Find(old(rows), id).Some?
        && FirstAccepted(OneOf(yes + no), lines).Answered?
        && FirstAccepted(OneOf(yes + no), lines).answer in yes
        && rows == Deleted(old(rows), id)
      ensures Find(old(rows), id).Some? ==>
        var confirmation := FirstAccepted(OneOf(yes + no), lines);
        && (ended <==> confirmation.InputEnded?)
        && (confirmation.Answered? ==>
              linesRead == confirmation.linesRead &&
              rows == if confirmation.answer in yes then Deleted(old(rows), id) else old(rows))
      ensures ended ==> rows == old(rows)
    {
      var reply;
      reply, linesRead := RiskyActionConfirmation(Delete, id, lines, yes, no);
      ended := reply == NoAnswer;
    }

    /** `edit_command`: the confirmed edit; a global command comes back. */
    method EditCommand(id: int, lines: seq<string>, yes: seq<Value>, no: seq<Value>, now: real)
      returns (reply: Reply, linesRead: nat)
      requires Valid()
      modifies this
      ensures Valid()
      ensures Confirmed(reply, linesRead, rows) == RiskyOutcome(Edit(now), old(rows), id, lines, yes, no)
      ensures linesRead <= |lines|
      ensures rows != old(rows) ==>
        && Find(old(rows), id).Some?
        && FirstAccepted(OneOf(yes + no), lines).Answered?
        && FirstAccepted(OneOf(yes + no), lines).answer in yes
      ensures Find(old(rows), id).Some? ==>
        var confirmation := FirstAccepted(OneOf(yes + no), lines);
        confirmation.Answered? && confirmation.answer in yes && confirmation.linesRead < |lines| ==>
          && rows == Edited(old(rows), id, Show(IsTheAnswerValid(AnyString, lines[confirmation.linesRead]).answer), Seconds(now))
          && linesRead == confirmation.linesRead + 1
      ensures reply == NoAnswer ==> rows == old(rows)
      ensures reply.LeftWith? ==> 0 < linesRead
    {
      reply, linesRead := RiskyActionConfirmation(Edit(now), id, lines, yes, no);
    }

    /** `execute_command`: text for the terminal goes straight to the shell;
        otherwise the command at position `id` has its call counted and is
        run, or `ValueError` comes back when there is none. */
    method ExecuteCommand(id: int, textForTerminal: Option<string>) returns (r: ExecuteResult)
      requires Valid()
      modifies this
      ensures Valid()
      ensures textForTerminal.Some? ==> r == Ran(textForTerminal.value) && rows == old(rows)
      ensures textForTerminal.None? && Find(old(rows), id).None? ==> r == NotFound && rows == old(rows)
      ensures textForTerminal.None? && Find(old(rows), id).Some? ==>
        && r == Ran(Find(old(rows), id).value) && r == Ran(old(rows)[id - 1].command)
        && rows == UpdateWhere(old(rows), id, CountCall)
        && |rows| == |old(rows)|
        && rows[id - 1].timesCalled == old(rows)[id - 1].timesCalled + 1
        && (forall i :: 0 <= i < |rows| && i != id - 1 ==> rows[i] == old(rows)[i])
    {
      if textForTerminal.Some? {
        return Ran(textForTerminal.value);
      }
      var command := Find(rows, id);
      if command.None? {
        return NotFound;
      }
      FindInDenseTable(rows, id);
      UpdatePopularity(id);
      return Ran(command.value);
    }

    /** `__add_new_command_method`: appends one row stamped with the clock,
        never called yet, written by the profile's author, last edited when
        created. */
    method AddNewCommand(description: string, command: string, profile: UserDataStore.UserData, today: string, now: real)
      requires Valid()
      modifies this
      ensures Valid()
      ensures |rows| == |old(rows)| + 1
      ensures rows[..|old(rows)|] == old(rows)
      ensures var added := rows[|old(rows)|];
        && added.description == description && added.command == command
        && added.dateCreated == today && added.createdAt == TruncMillis(now)
        && added.timesCalled == 0
        && added.author == profile.FindAuthor()
        && added.lastEdited == Millis(added.createdAt)
      ensures rows == old(rows) + [SavedCommand(|old(rows)| + 1, description, command, today, TruncMillis(now), 0,
                                                profile.FindAuthor(), Millis(TruncMillis(now)))]
    {
      var author := profile.FindAuthor();
      var stamp := TruncMillis(now);
      rows := rows + [SavedCommand(|rows| + 1, description, command, today, stamp, 0, author, Millis(stamp))];
    }

    /** `recent_commands_list`: the three newest commands, then those of the
        scanned part of the popular list that are not listed yet. */
    method RecentCommandsList() returns (list: seq<CommandView>)
      requires Valid()
      ensures var recent := TopRecent(rows); var popular := TopFrequent(rows);
        && list == AppendNew(recent, popular[..PopularScanned(|popular|)])
        && |recent| <= |list| && list[..|recent|] == recent
        && Distinct(list)
        && (forall v :: v in list <==> v in recent || v in popular[..PopularScanned(|popular|)])
        && |list| <= 3 + 7
    {
      var t3l := TopRecent(rows);
      var t8l := TopFrequent(rows);
      TopListsOfDenseTable(rows);
      list := [];
      for i := 0 to |t3l|
        invariant list == t3l[..i]
      {
        list := list + [t3l[i]];
      }
      assert list == t3l;
      var r: int;
      if 7 >= |t8l| - 1 {
        r := |t8l| - 1;
      } else {
        r := 7;
      }
      assert (if r < 0 then 0 else r) == PopularScanned(|t8l|);
      var i := 0;
      while i < r
        invariant 0 <= i <= PopularScanned(|t8l|)
        invariant |t3l| <= |list| && list[..|t3l|] == t3l
        invariant Distinct(list)
        invariant forall v :: v in list <==> v in t3l || v in t8l[..i]
        invariant |list| <= |t3l| + i
        invariant list == AppendNew(t3l, t8l[..i])
      {
        assert t8l[..i + 1][..i] == t8l[..i];
        if t8l[i] !in list {
          list := list + [t8l[i]];
        }
        assert t8l[..i + 1] == t8l[..i] + [t8l[i]];
        i := i + 1;
      }
      assert i == PopularScanned(|t8l|);
      assert |t3l| <= 3 && i <= 7;
    }

    /** `export_all`: one line per row, in position order. */
    method ExportAll() returns (file: seq<string>)
      requires Valid()
      ensures |file| == |rows|
      ensures forall i :: 0 <= i < |rows| ==> file[i] == ExportLine(View(rows[i]))
      ensures file == ExportFile(rows)
    {
      var commandsToSave := ViewAll();
      file := [];
      for i := 0 to |commandsToSave|
        invariant |file| == i
        invariant forall j :: 0 <= j < i ==> file[j] == ExportLine(View(rows[j]))
      {
        var line := commandsToSave[i];
        assert line == View(rows[i]);
        file := file + [ExportLine(line)];
      }
    }
  }
}
