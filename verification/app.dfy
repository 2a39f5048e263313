/** The demo page: a four-field form whose submit appends a user to the list
    shown in a selectable table. */
module App {
  import opened Wrappers
  import JsValues
  import DataTable

  datatype User = User(id: int, name: string, email: string, role: string)

  /** The form object. Besides its four named fields, a change event whose
      target id names none of them adds a key of that name (object spread with
      a computed key); those keys live in `others`. */
  datatype FormData = FormData(
    name: string,
    email: string,
    password: string,
    username: string,
    others: map<string, string>)

  datatype AppState = AppState(users: seq<User>, form: FormData)

  /** A user interaction on the page: a change event reduced to the target's
      (id, value) pair, or a click on Submit. */
  datatype Event = InputChange(id: string, value: string) | SubmitClick

  const EmptyForm: FormData := FormData("", "", "", "", map[])

  const InitialData: seq<User> := [
    User(1, "Alice", "alice@example.com", "Admin"),
    User(2, "Bob", "bob@example.com", "User"),
    User(3, "Charlie", "charlie@example.com", "User")
  ]

  const Initial: AppState := AppState(InitialData, EmptyForm)

  /** The keys the form object starts with and is reset to. */
  const FieldNames: set<string> := {"name", "email", "password", "username"}

  /** Reading property `key` of the form object; None when it has no such key.
      The four named fields are always present; any other key is present iff
      a change event added it. */
  function Lookup(f: FormData, key: string): (r: Option<string>)
    ensures r.Some? <==> key in FieldNames || key in f.others
    ensures key == "name" ==> r == Some(f.name)
    ensures key == "email" ==> r == Some(f.email)
    ensures key == "password" ==> r == Some(f.password)
    ensures key == "username" ==> r == Some(f.username)
    ensures key !in FieldNames && key in f.others ==> r == Some(f.others[key])
  {
    if key == "name" then Some(f.name)
    else if key == "email" then Some(f.email)
    else if key == "password" then Some(f.password)
    else if key == "username" then Some(f.username)
    else if key in f.others then Some(f.others[key])
    else None
  }

  /** The change handler: the property named by the event's id takes the new
      value, every other property keeps its value. */
  function InputChanged(f: FormData, id: string, value: string): (g: FormData)
    ensures Lookup(g, id) == Some(value)
    ensures forall key :: key != id ==> Lookup(g, key) == Lookup(f, key)
  {
    if id == "name" then f.(name := value)
    else if id == "email" then f.(email := value)
    else if id == "password" then f.(password := value)
    else if id == "username" then f.(username := value)
    else f.(others := f.others[id := value])
  }

  /** The submit handler. With a name and an email, a user with the next id
      and role "User" is appended and the form is emptied; otherwise nothing
      changes. */
  function Submit(st: AppState): (st': AppState)
    ensures !(JsValues.Truthy(st.form.name) && JsValues.Truthy(st.form.email)) ==> st' == st
    ensures JsValues.Truthy(st.form.name) && JsValues.Truthy(st.form.email) ==>
      && |st'.users| == |st.users| + 1
      && st'.users[..|st.users|] == st.users
      && st'.users[|st.users|] == User(|st.users| + 1, st.form.name, st.form.email, "User")
      && (forall key :: key in FieldNames ==> Lookup(st'.form, key) == Some(""))
      && (forall key :: key !in FieldNames ==> Lookup(st'.form, key) == None)
  {
    if JsValues.Truthy(st.form.name) && JsValues.Truthy(st.form.email) then
      var newUser := User(|st.users| + 1, st.form.name, st.form.email, "User");
      AppState(st.users + [newUser], EmptyForm)
    else
      st
  }

  /** The password and username typed into the form are not stored: the user
      list after a submit does not depend on them. */
  lemma SubmitIgnoresPasswordAndUsername(st: AppState, password: string, username: string)
    ensures Submit(st).users
         == Submit(st.(form := st.form.(password := password, username := username))).users
  {
  }

  function Step(st: AppState, e: Event): (st': AppState)
    ensures e.InputChange? ==> st'.users == st.users
    ensures |st.users| <= |st'.users| <= |st.users| + 1
    ensures st'.users[..|st.users|] == st.users
  {
    match e
    case InputChange(id, value) => st.(form := InputChanged(st.form, id, value))
    case SubmitClick => Submit(st)
  }

  /** The page state after a sequence of interactions, each applied in turn:
      the user list only grows at its end, by at most one user per event. */
  function Run(st: AppState, events: seq<Event>): (st': AppState)
    ensures st.users <= st'.users
    ensures |st'.users| <= |st.users| + |events|
    decreases |events|
  {
    if |events| == 0 then st else Run(Step(st, events[0]), events[1..])
  }

  /** The user at index i carries id i + 1. */
  predicate WellNumbered(users: seq<User>) {
    forall i :: 0 <= i < |users| ==> users[i].id == i + 1
  }

  lemma WellNumberedUnique(users: seq<User>)
    requires WellNumbered(users)
    ensures DataTable.NoDuplicates(DataTable.RowIds(UserRows(users)))
  {
  }

  lemma StepKeepsNumbering(st: AppState, e: Event)
    requires WellNumbered(st.users)
    ensures WellNumbered(Step(st, e).users)
  {
    var u := Step(st, e).users;
    forall i | 0 <= i < |u| ensures u[i].id == i + 1 {
      if i < |st.users| {
        assert u[i] == u[..|st.users|][i];
      }
    }
  }

  /** From the initial page, every reachable user list is numbered 1..n, keeps
      the initial users as a prefix, and so has unique ids. */
  lemma {:induction false} ReachableWellNumbered(st: AppState, events: seq<Event>)
    requires WellNumbered(st.users)
    ensures WellNumbered(Run(st, events).users)
    ensures st.users <= Run(st, events).users
    ensures DataTable.NoDuplicates(DataTable.RowIds(UserRows(Run(st, events).users)))
    decreases |events|
  {
    if |events| == 0 {
      WellNumberedUnique(st.users);
    } else {
      var next := Step(st, events[0]);
      StepKeepsNumbering(st, events[0]);
      ReachableWellNumbered(next, events[1..]);
    }
  }

  lemma InitialWellNumbered()
    ensures WellNumbered(Initial.users)
    ensures forall events :: WellNumbered(Run(Initial, events).users)
  {
    forall events ensures WellNumbered(Run(Initial, events).users) {
      ReachableWellNumbered(Initial, events);
    }
  }

  // ---------------------------------------------------------------------
  // The users table
  // ---------------------------------------------------------------------

  const Columns: seq<DataTable.Column> := [
    DataTable.Column("name", "Name", "name"),
    DataTable.Column("email", "Email", "email"),
    DataTable.Column("role", "Role", "role")
  ]

  function UserRow(u: User): DataTable.Row {
    DataTable.Row(u.id, map["name" := u.name, "email" := u.email, "role" := u.role])
  }

  function UserRows(users: seq<User>): (rows: seq<DataTable.Row>)
    ensures |rows| == |users|
    ensures forall i :: 0 <= i < |users| ==> rows[i].id == users[i].id
  {
    seq(|users|, i requires 0 <= i < |users| => UserRow(users[i]))
  }

  /** The page's table shows, for user i, a checkbox followed by its name,
      email and role, and its rows carry unique ids whenever the user list is
      well numbered. */
  lemma UsersTableRows(users: seq<User>, selected: seq<DataTable.RowId>)
    requires WellNumbered(users)
    ensures var v := DataTable.Render(UserRows(users), Columns, true, selected);
      && |v.body| == |users|
      && (forall i :: 0 <= i < |users| ==>
            v.body[i] == [DataTable.CheckboxCell(i + 1 in selected, i + 1),
                          DataTable.TextCell(users[i].name),
                          DataTable.TextCell(users[i].email),
                          DataTable.TextCell(users[i].role)])
    ensures DataTable.NoDuplicates(DataTable.RowIds(UserRows(users)))
  {
    var rows := UserRows(users);
    var v := DataTable.Render(rows, Columns, true, selected);
    DataTable.RenderShape(rows, Columns, true, selected);
    forall i | 0 <= i < |users|
      ensures v.body[i] == [DataTable.CheckboxCell(i + 1 in selected, i + 1),
                            DataTable.TextCell(users[i].name),
                            DataTable.TextCell(users[i].email),
                            DataTable.TextCell(users[i].role)]
    {
      assert |v.body[i]| == 4;
      assert v.body[i][1] == DataTable.TextCell(DataTable.CellText(rows[i], Columns[0]));
      assert v.body[i][2] == DataTable.TextCell(DataTable.CellText(rows[i], Columns[1]));
      assert v.body[i][3] == DataTable.TextCell(DataTable.CellText(rows[i], Columns[2]));
    }
  }
}
