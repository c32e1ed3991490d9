/** The menu catalog and the two look-ups the screens make in it. */
module ViewContents {
  import opened Wrappers

  /** One row of the `menu_options` table: id, tag, description. */
  datatype MenuOption = MenuOption(id: int, tag: string, description: string)

  /** The menu options a fresh database holds, in id order. */
  const Catalog: seq<MenuOption> := [
    MenuOption(1, "e", "Execute an existing command"),
    MenuOption(2, "a", "Add a new command"),
    MenuOption(3, "edit", "Edit an existing command"),
    MenuOption(4, "d", "Delete a command"),
    MenuOption(5, "ss", "Show single command full data "),
    MenuOption(6, "t", "Write a command directly for the terminal"),
    MenuOption(7, "b", "Go to the Main Menu"),
    MenuOption(8, "bs", "Go to the Saved Commands Menu"),
    MenuOption(9, "help", "Go to the Help Page"),
    MenuOption(10, "r", "Repeat last command"),
    MenuOption(11, "q", "Exit program"),
    MenuOption(12, "exportall", "Export all saved commands to a text file."),
    MenuOption(13, "setuser", "Set user's name."),
    MenuOption(14, "setuserdep", "Set user's department.")
  ]

  /** The tags of a menu, in menu order. */
  function Tags(menu: seq<MenuOption>): seq<string> {
    seq(|menu|, i requires 0 <= i < |menu| => menu[i].tag)
  }

  /** The entries of `menu` whose tag is in `available`, in menu order. */
  function Select(menu: seq<MenuOption>, available: seq<string>): seq<MenuOption> {
    if menu == [] then []
    else
      var last := menu[|menu| - 1];
      Select(menu[..|menu| - 1], available) + (if last.tag in available then [last] else [])
  }

  /** The menu indices `Select` keeps, in increasing order. */
  function SelectedIndices(menu: seq<MenuOption>, available: seq<string>): seq<int> {
    if menu == [] then []
    else
      SelectedIndices(menu[..|menu| - 1], available) +
        (if menu[|menu| - 1].tag in available then [|menu| - 1] else [])
  }

  /** `a` is `b` with some entries left out: `at` gives, in increasing order,
      the index in `b` of each entry of `a`. */
  predicate Embeds<T(==)>(a: seq<T>, b: seq<T>, at: seq<int>) {
    && |at| == |a|
    && (forall k :: 0 <= k < |at| ==> 0 <= at[k] < |b| && a[k] == b[at[k]])
    && (forall k, l :: 0 <= k < l < |at| ==> at[k] < at[l])
  }

  /** An entry is kept exactly when it is in the menu and its tag is available. */
  lemma {:induction false} SelectMembers(menu: seq<MenuOption>, available: seq<string>)
    ensures forall o :: o in Select(menu, available) <==> o in menu && o.tag in available
    decreases |menu|
  {
    if menu != [] {
      var init := menu[..|menu| - 1];
      SelectMembers(init, available);
      assert menu == init + [menu[|menu| - 1]];
    }
  }

  /** The kept entries keep their menu order: the result is a subsequence of
      the menu. */
  lemma {:induction false} SelectIsSubsequence(menu: seq<MenuOption>, available: seq<string>)
    ensures Embeds(Select(menu, available), menu, SelectedIndices(menu, available))
    ensures forall k :: 0 <= k < |SelectedIndices(menu, available)| ==>
      SelectedIndices(menu, available)[k] < |menu|
    decreases |menu|
  {
    if menu != [] {
      var init := menu[..|menu| - 1];
      SelectIsSubsequence(init, available);
      var a := Select(menu, available);
      var at := SelectedIndices(menu, available);
      var a0 := Select(init, available);
      var at0 := SelectedIndices(init, available);
      forall k | 0 <= k < |at|
        ensures 0 <= at[k] < |menu| && a[k] == menu[at[k]]
      {
        if k < |at0| {
          assert at[k] == at0[k] && a[k] == a0[k];
        }
      }
    }
  }

  /** `__available_options`: the loop that keeps the catalog entries whose
      tag is available. */
  method AvailableOptions(menu: seq<MenuOption>, available: seq<string>) returns (returnList: seq<MenuOption>)
    ensures returnList == Select(menu, available)
  {
    returnList := [];
    for i := 0 to |menu|
      invariant returnList == Select(menu[..i], available)
    {
      assert menu[..i + 1][..i] == menu[..i];
      if menu[i].tag in available {
        returnList := returnList + [menu[i]];
      }
    }
    assert menu[..|menu|] == menu;
  }

  /** `__find_option`: the description of the first entry tagged `opt`, or
      None when no entry has that tag. */
  method FindOption(menu: seq<MenuOption>, opt: string) returns (description: Option<string>)
    ensures description.None? <==> forall i :: 0 <= i < |menu| ==> menu[i].tag != opt
    ensures description.Some? ==> exists i ::
      && 0 <= i < |menu| && menu[i].tag == opt && menu[i].description == description.value
      && forall j :: 0 <= j < i ==> menu[j].tag != opt
  {
    description := None;
    var i := 0;
    while i < |menu|
      invariant 0 <= i <= |menu|
      invariant forall j :: 0 <= j < i ==> menu[j].tag != opt
    {
      if menu[i].tag == opt {
        description := Some(menu[i].description);
        break;
      }
      i := i + 1;
    }
  }
}
