/** The single profile row of the `user_data` table: the author name stamped
    on new commands and the author's department. */
module UserDataStore {
  import opened InputWindow

  /** How a profile change ends: written, left with a global command (nothing
      written), or the input ended before an answer came. */
  datatype ProfileChange = Changed | LeftWith(token: string) | NoInput

  const DefaultUsername: string := "admin"
  const DefaultDepartment: string := "administration"

  class UserData {
    var username: string
    var department: string

    /** The profile a fresh database starts with. */
    constructor Default()
      ensures username == DefaultUsername && department == DefaultDepartment
    {
      username := DefaultUsername;
      department := DefaultDepartment;
    }

    /** `find_author`: the user name of the profile row. */
    function FindAuthor(): string
      reads this
    {
      username
    }

    /** `__change_author_method`: reads the current author, asks one any-text
        question and, unless the answer is a global command, rewrites the user
        name of the row holding that author. The department never changes. */
    method ChangeAuthor(lines: seq<string>) returns (r: ProfileChange, linesRead: nat)
      modifies this
      ensures linesRead == if |lines| == 0 then 0 else 1
      ensures department == old(department)
      ensures |lines| == 0 ==> r == NoInput && username == old(username)
      ensures |lines| > 0 && lines[0] in GlobalCommands ==>
        r == LeftWith(lines[0]) && username == old(username)
      ensures |lines| > 0 && lines[0] !in GlobalCommands ==>
        r == Changed && username == AsText(lines[0]) && FindAuthor() == AsText(lines[0])
    {
      var existingAuthor := FindAuthor();
      var asked := AskInput(AnyString, lines, Wrappers.None);
      AnyTextTakesOneLine(lines);
      if |lines| > 0 {
        AnyTextIsNeverRejected(lines[0]);
      }
      if asked.InputEnded? {
        return NoInput, 0;
      }
      var newAuthor := asked.answer;
      if IsGlobal(newAuthor) {
        return LeftWith(newAuthor.s), asked.linesRead;
      }
      // UPDATE user_data SET username = new WHERE username = existing: the
      // table holds exactly one row, the profile, so the WHERE always matches.
      if username == existingAuthor {
        username := Show(newAuthor);
      }
      return Changed, asked.linesRead;
    }

    /** `__change_authors_department_method`: the same protocol for the
        department; the user name never changes. */
    method ChangeAuthorsDepartment(lines: seq<string>) returns (r: ProfileChange, linesRead: nat)
      modifies this
      ensures linesRead == if |lines| == 0 then 0 else 1
      ensures username == old(username)
      ensures |lines| == 0 ==> r == NoInput && department == old(department)
      ensures |lines| > 0 && lines[0] in GlobalCommands ==>
        r == LeftWith(lines[0]) && department == old(department)
      ensures |lines| > 0 && lines[0] !in GlobalCommands ==>
        r == Changed && department == AsText(lines[0])
    {
      var existingDepartment := department;
      var asked := AskInput(AnyString, lines, Wrappers.None);
      AnyTextTakesOneLine(lines);
      if |lines| > 0 {
        AnyTextIsNeverRejected(lines[0]);
      }
      if asked.InputEnded? {
        return NoInput, 0;
      }
      var newDepartment := asked.answer;
      if IsGlobal(newDepartment) {
        return LeftWith(newDepartment.s), asked.linesRead;
      }
      // UPDATE user_data SET department = new WHERE department = existing: the
      // table holds exactly one row, the profile, so the WHERE always matches.
      if department == existingDepartment {
        department := Show(newDepartment);
      }
      return Changed, asked.linesRead;
    }
  }
}
