/** The tabular display component: a selection of row ids that checkboxes
    toggle, the report of selected rows handed to the owner, and the shape of
    the rendered table (header cells, one body row per data row). */
module DataTable {
  import opened Wrappers

  /** A row identifier (a JavaScript number; the rows shown carry integers). */
  type RowId = int

  /** A data record: its identifying field plus the named fields a column
      may display. */
  datatype Row = Row(id: RowId, fields: map<string, string>)

  /** A column descriptor; the sortable flag has no behaviour and is omitted. */
  datatype Column = Column(key: string, title: string, dataIndex: string)

  // ---------------------------------------------------------------------
  // Sequence vocabulary
  // ---------------------------------------------------------------------

  predicate NoDuplicates<T(==)>(s: seq<T>) {
    forall i, j :: 0 <= i < j < |s| ==> s[i] != s[j]
  }

  /** The ids of the rows, in data order. */
  function RowIds(data: seq<Row>): (ids: seq<RowId>)
    ensures |ids| == |data|
    ensures forall i :: 0 <= i < |data| ==> ids[i] == data[i].id
  {
    seq(|data|, i requires 0 <= i < |data| => data[i].id)
  }

  /** `a` is obtained from `b` by deleting zero or more elements. */
  predicate IsSubsequence<T(==)>(a: seq<T>, b: seq<T>)
    decreases |b|
  {
    if |a| == 0 then true
    else if |b| == 0 then false
    else if a[0] == b[0] then IsSubsequence(a[1..], b[1..])
    else IsSubsequence(a, b[1..])
  }

  // ---------------------------------------------------------------------
  // Selection toggling
  // ---------------------------------------------------------------------

  /** The selection with every occurrence of `id` filtered out. */
  function RemoveAll(s: seq<RowId>, id: RowId): (r: seq<RowId>)
    ensures forall x :: x in r <==> x in s && x != id
    ensures forall x :: x != id ==> multiset(r)[x] == multiset(s)[x]
    ensures |r| == |s| - multiset(s)[id]
    ensures IsSubsequence(r, s)
  {
    if |s| == 0 then []
    else
      var rest := RemoveAll(s[1..], id);
      assert s == [s[0]] + s[1..];
      if s[0] == id then
        assert |rest| == 0 || rest[0] != s[0] by {
          if |rest| > 0 { assert rest[0] in rest; }
        }
        rest
      else
        assert ([s[0]] + rest)[1..] == rest;
        [s[0]] + rest
  }

  /** Clicking the checkbox of row `id`: an id already selected is removed
      (every occurrence), an id not selected is appended at the end. */
  function Toggle(s: seq<RowId>, id: RowId): (r: seq<RowId>)
    ensures id in r <==> id !in s
    ensures forall x :: x != id ==> (x in r <==> x in s)
    ensures forall x :: x != id ==> multiset(r)[x] == multiset(s)[x]
    ensures id !in s ==> |r| == |s| + 1 && r[..|s|] == s && r[|s|] == id
    ensures id in s ==> IsSubsequence(r, s) && |r| < |s|
  {
    if id in s then
      assert multiset(s)[id] > 0;
      RemoveAll(s, id)
    else
      s + [id]
  }

  lemma {:induction false} RemoveAllAbsent(s: seq<RowId>, id: RowId)
    requires id !in s
    ensures RemoveAll(s, id) == s
    decreases |s|
  {
    if |s| > 0 {
      RemoveAllAbsent(s[1..], id);
      assert s == [s[0]] + s[1..];
    }
  }

  lemma {:induction false} RemoveAllAppend(a: seq<RowId>, b: seq<RowId>, id: RowId)
    ensures RemoveAll(a + b, id) == RemoveAll(a, id) + RemoveAll(b, id)
    decreases |a|
  {
    if |a| > 0 {
      assert (a + b)[1..] == a[1..] + b;
      RemoveAllAppend(a[1..], b, id);
    } else {
      assert a + b == b;
    }
  }

  /** Removing an id from a duplicate-free selection keeps it duplicate-free. */
  lemma {:induction false} RemoveAllNoDuplicates(s: seq<RowId>, id: RowId)
    requires NoDuplicates(s)
    ensures NoDuplicates(RemoveAll(s, id))
    decreases |s|
  {
    if |s| > 0 {
      assert NoDuplicates(s[1..]) by {
        forall i, j | 0 <= i < j < |s[1..]| ensures s[1..][i] != s[1..][j] {
          assert s[1..][i] == s[i + 1] && s[1..][j] == s[j + 1];
        }
      }
      RemoveAllNoDuplicates(s[1..], id);
      var rest := RemoveAll(s[1..], id);
      if s[0] != id {
        assert s[0] !in s[1..] by {
          forall k | 0 <= k < |s[1..]| ensures s[1..][k] != s[0] {
            assert s[1..][k] == s[k + 1];
          }
        }
        var r := [s[0]] + rest;
        forall i, j | 0 <= i < j < |r| ensures r[i] != r[j] {
          if i == 0 {
            assert r[j] == rest[j - 1] && rest[j - 1] in rest;
          } else {
            assert r[i] == rest[i - 1] && r[j] == rest[j - 1];
          }
        }
      }
    }
  }

  /** A duplicate-free selection stays duplicate-free under a toggle. */
  lemma TogglePreservesNoDuplicates(s: seq<RowId>, id: RowId)
    requires NoDuplicates(s)
    ensures NoDuplicates(Toggle(s, id))
  {
    if id in s {
      RemoveAllNoDuplicates(s, id);
    } else {
      var r := Toggle(s, id);
      forall i, j | 0 <= i < j < |r| ensures r[i] != r[j] {
        if j == |s| {
          assert r[i] == s[i] && s[i] in s;
        } else {
          assert r[i] == s[i] && r[j] == s[j];
        }
      }
    }
  }

  /** Toggling an id that was absent twice gives back the exact sequence. */
  lemma ToggleTwiceFromAbsent(s: seq<RowId>, id: RowId)
    requires id !in s
    ensures Toggle(Toggle(s, id), id) == s
  {
    RemoveAllAppend(s, [id], id);
    RemoveAllAbsent(s, id);
    assert RemoveAll([id], id) == [];
  }

  /** Toggling an id that was present twice restores membership, and leaves
      the id as the last entry. */
  lemma ToggleTwiceFromPresent(s: seq<RowId>, id: RowId)
    requires id in s
    ensures var t := Toggle(Toggle(s, id), id);
      && (forall x :: x in t <==> x in s)
      && t == RemoveAll(s, id) + [id]
      && t[|t| - 1] == id
  {
  }

  /** Two toggles of the same id restore the exact sequence precisely when the
      id was absent or occurred once, as the last entry. */
  lemma ToggleTwiceRestoresIff(s: seq<RowId>, id: RowId)
    ensures Toggle(Toggle(s, id), id) == s
        <==> id !in s || (s[|s| - 1] == id && id !in s[..|s| - 1])
  {
    if id !in s {
      ToggleTwiceFromAbsent(s, id);
    } else {
      var t := Toggle(Toggle(s, id), id);
      var front := s[..|s| - 1];
      assert s == front + [s[|s| - 1]];
      if s[|s| - 1] == id && id !in front {
        RemoveAllAppend(front, [id], id);
        RemoveAllAbsent(front, id);
        assert RemoveAll([id], id) == [];
      }
      if t == s {
        assert t[..|t| - 1] == RemoveAll(s, id);
      }
    }
  }

  // ---------------------------------------------------------------------
  // Selected-rows report
  // ---------------------------------------------------------------------

  /** The data rows whose id is in the selection, in data order. */
  function Report(data: seq<Row>, selected: seq<RowId>): (r: seq<Row>)
    ensures forall row :: row in r <==> row in data && row.id in selected
    ensures forall row :: multiset(r)[row] == if row.id in selected then multiset(data)[row] else 0
    ensures IsSubsequence(r, data)
  {
    if |data| == 0 then []
    else
      var rest := Report(data[1..], selected);
      assert data == [data[0]] + data[1..];
      if data[0].id in selected then
        assert ([data[0]] + rest)[1..] == rest;
        [data[0]] + rest
      else
        rest
  }

  /** The report depends on the selection only through its membership. */
  lemma {:induction false} ReportMembershipOnly(data: seq<Row>, s1: seq<RowId>, s2: seq<RowId>)
    requires forall x :: x in s1 <==> x in s2
    ensures Report(data, s1) == Report(data, s2)
    decreases |data|
  {
    if |data| > 0 {
      ReportMembershipOnly(data[1..], s1, s2);
    }
  }

  /** Toggling a present id twice reports the same rows as before, even though
      the selection order changed. */
  lemma ToggleTwiceSameReport(data: seq<Row>, s: seq<RowId>, id: RowId)
    ensures Report(data, Toggle(Toggle(s, id), id)) == Report(data, s)
  {
    if id in s {
      ToggleTwiceFromPresent(s, id);
      ReportMembershipOnly(data, Toggle(Toggle(s, id), id), s);
    } else {
      ToggleTwiceFromAbsent(s, id);
    }
  }

  /** The outcome of a checkbox change: the new selection, and the rows handed
      to `onRowSelect` (None when no callback is supplied). */
  datatype SelectOutcome = SelectOutcome(selected: seq<RowId>, reported: Option<seq<Row>>)

  function HandleSelectRow(data: seq<Row>, selected: seq<RowId>, id: RowId, hasCallback: bool): (o: SelectOutcome)
    ensures id in o.selected <==> id !in selected
    ensures forall x :: x != id ==> (x in o.selected <==> x in selected)
    ensures id !in selected ==> o.selected == selected + [id]
    ensures id in selected ==> o.selected == RemoveAll(selected, id)
    ensures o.reported.Some? <==> hasCallback
    ensures o.reported.Some? ==> forall row :: row in o.reported.value <==>
      row in data && (if row.id == id then id !in selected else row.id in selected)
    ensures o.reported.Some? ==> IsSubsequence(o.reported.value, data)
    ensures o.reported.Some? ==> forall row :: (multiset(o.reported.value)[row] ==
      if (if row.id == id then id !in selected else row.id in selected) then multiset(data)[row] else 0)
  {
    var next := Toggle(selected, id);
    SelectOutcome(next, if hasCallback then Some(Report(data, next)) else None)
  }

  // ---------------------------------------------------------------------
  // Rendered shape
  // ---------------------------------------------------------------------

  datatype HeaderCell = SelectHeader | TitleHeader(title: string)

  datatype BodyCell = CheckboxCell(checked: bool, rowId: RowId) | TextCell(text: string)

  datatype TableView = TableView(header: seq<HeaderCell>, body: seq<seq<BodyCell>>)

  /** `String(row[col.dataIndex])`: a missing field stringifies to "undefined". */
  function CellText(row: Row, col: Column): (text: string)
    ensures col.dataIndex in row.fields ==> text == row.fields[col.dataIndex]
    ensures col.dataIndex !in row.fields ==> text == "undefined"
  {
    if col.dataIndex in row.fields then row.fields[col.dataIndex] else "undefined"
  }

  function SelectWidth(selectable: bool): nat {
    if selectable then 1 else 0
  }

  /** The header line: a "Select" cell when selectable, then each column's
      title in column order. */
  function RenderHeader(columns: seq<Column>, selectable: bool): (h: seq<HeaderCell>)
    ensures |h| == |columns| + SelectWidth(selectable)
    ensures selectable ==> h[0] == SelectHeader
    ensures forall j :: 0 <= j < |columns| ==> h[SelectWidth(selectable) + j] == TitleHeader(columns[j].title)
  {
    (if selectable then [SelectHeader] else [])
      + seq(|columns|, j requires 0 <= j < |columns| => TitleHeader(columns[j].title))
  }

  /** One body line: when selectable, a checkbox checked iff the row's id is
      selected; then the row's text under each column. */
  function RenderRow(row: Row, columns: seq<Column>, selectable: bool, selected: seq<RowId>): (cells: seq<BodyCell>)
    ensures |cells| == |columns| + SelectWidth(selectable)
    ensures selectable ==> cells[0] == CheckboxCell(row.id in selected, row.id)
    ensures forall j :: 0 <= j < |columns| ==> cells[SelectWidth(selectable) + j] == TextCell(CellText(row, columns[j]))
  {
    (if selectable then [CheckboxCell(row.id in selected, row.id)] else [])
      + seq(|columns|, j requires 0 <= j < |columns| => TextCell(CellText(row, columns[j])))
  }

  /** The whole table: the header line and one body line per data row, in
      data order. */
  function Render(data: seq<Row>, columns: seq<Column>, selectable: bool, selected: seq<RowId>): (v: TableView)
    ensures |v.header| == |columns| + SelectWidth(selectable)
    ensures |v.body| == |data|
    ensures forall i :: 0 <= i < |data| ==> |v.body[i]| == |columns| + SelectWidth(selectable)
    ensures selectable ==> forall i :: 0 <= i < |data| ==> v.body[i][0].CheckboxCell? && v.body[i][0].rowId == data[i].id
  {
    TableView(
      RenderHeader(columns, selectable),
      seq(|data|, i requires 0 <= i < |data| => RenderRow(data[i], columns, selectable, selected)))
  }

  /** Header and body layout: one extra leading cell per line when selectable,
      the checkbox of row i checked iff its id is selected, and the text of
      column j in cell j after it. */
  lemma RenderShape(data: seq<Row>, columns: seq<Column>, selectable: bool, selected: seq<RowId>)
    ensures var v := Render(data, columns, selectable, selected);
      && |v.header| == |columns| + SelectWidth(selectable)
      && (selectable ==> v.header[0] == SelectHeader)
      && (forall j :: 0 <= j < |columns| ==> v.header[SelectWidth(selectable) + j] == TitleHeader(columns[j].title))
      && |v.body| == |data|
      && (forall i :: 0 <= i < |data| ==> |v.body[i]| == |columns| + SelectWidth(selectable))
      && (selectable ==> forall i :: 0 <= i < |data| ==>
            v.body[i][0] == CheckboxCell(data[i].id in selected, data[i].id))
      && (forall i, j :: 0 <= i < |data| && 0 <= j < |columns| ==>
            v.body[i][SelectWidth(selectable) + j] == TextCell(CellText(data[i], columns[j])))
  {
  }

  function TextCount(cells: seq<BodyCell>): nat {
    if |cells| == 0 then 0 else (if cells[0].TextCell? then 1 else 0) + TextCount(cells[1..])
  }

  function CheckboxCount(cells: seq<BodyCell>): nat {
    if |cells| == 0 then 0 else (if cells[0].CheckboxCell? then 1 else 0) + CheckboxCount(cells[1..])
  }

  function TotalText(rows: seq<seq<BodyCell>>): nat {
    if |rows| == 0 then 0 else TextCount(rows[0]) + TotalText(rows[1..])
  }

  function TotalCheckboxes(rows: seq<seq<BodyCell>>): nat {
    if |rows| == 0 then 0 else CheckboxCount(rows[0]) + TotalCheckboxes(rows[1..])
  }

  lemma {:induction false} CountsOfTextCells(cells: seq<BodyCell>)
    requires forall k :: 0 <= k < |cells| ==> cells[k].TextCell?
    ensures TextCount(cells) == |cells| && CheckboxCount(cells) == 0
    decreases |cells|
  {
    if |cells| > 0 {
      CountsOfTextCells(cells[1..]);
    }
  }

  lemma CountsOfRow(row: Row, columns: seq<Column>, selectable: bool, selected: seq<RowId>)
    ensures TextCount(RenderRow(row, columns, selectable, selected)) == |columns|
    ensures CheckboxCount(RenderRow(row, columns, selectable, selected)) == SelectWidth(selectable)
  {
    var texts := seq(|columns|, j requires 0 <= j < |columns| => TextCell(CellText(row, columns[j])));
    CountsOfTextCells(texts);
    var cells := RenderRow(row, columns, selectable, selected);
    if selectable {
      assert cells[1..] == texts;
    } else {
      assert cells == texts;
    }
  }

  /** Rows that each hold `m` text cells and `c` checkboxes hold n*m text cells
      and n*c checkboxes in all. */
  lemma {:induction false} TotalsOfUniformRows(rows: seq<seq<BodyCell>>, m: nat, c: nat)
    requires forall i :: 0 <= i < |rows| ==> TextCount(rows[i]) == m && CheckboxCount(rows[i]) == c
    ensures TotalText(rows) == |rows| * m
    ensures TotalCheckboxes(rows) == |rows| * c
    decreases |rows|
  {
    if |rows| > 0 {
      TotalsOfUniformRows(rows[1..], m, c);
      assert |rows| * m == m + (|rows| - 1) * m;
      assert |rows| * c == c + (|rows| - 1) * c;
    }
  }

  /** N rows and M columns render N*M data cells, plus one checkbox per row
      and one extra header cell when the table is selectable. */
  lemma CellCounts(data: seq<Row>, columns: seq<Column>, selectable: bool, selected: seq<RowId>)
    ensures var v := Render(data, columns, selectable, selected);
      && TotalText(v.body) == |data| * |columns|
      && TotalCheckboxes(v.body) == (if selectable then |data| else 0)
      && |v.header| == |columns| + (if selectable then 1 else 0)
  {
    var v := Render(data, columns, selectable, selected);
    forall i | 0 <= i < |v.body|
      ensures TextCount(v.body[i]) == |columns| && CheckboxCount(v.body[i]) == SelectWidth(selectable)
    {
      CountsOfRow(data[i], columns, selectable, selected);
    }
    TotalsOfUniformRows(v.body, |columns|, SelectWidth(selectable));
  }
}
