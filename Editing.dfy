/**
 * The editor's table store and the operations that change it: loading,
 * manual insert, clipboard paste, merge, header-click sorting, and the
 * edit or deletion of one row through the row dialog.
 *
 * Besides the table store (`data`, row 0 the header) and the sort state,
 * the editor keeps what the table view holds, because several operations
 * read it back: the view's column list (`columns`, the synthetic row-number
 * column first) and the values of its items (`view`, top to bottom, each
 * starting with the row number shown).
 */
module Editing {
  import opened Wrappers
  import opened Strings
  import opened Cells
  import opened Sorting
  import opened Merging

  /** The heading of the synthetic row-number column. */
  const IndexHeading: Cell := Text("Index")

  /** The items the view shows for the data rows: each row after its 1-based number. */
  function Numbered(rows: seq<Row>): (v: seq<Row>)
    ensures |v| == |rows|
    ensures forall p :: 0 <= p < |v| ==> v[p] == [Label(p + 1)] + rows[p]
  {
    seq(|rows|, p requires 0 <= p < |rows| => [Label(p + 1)] + rows[p])
  }

  /** `values[1:]`: an item's values after the row number. */
  function Tail(r: Row): Row
  {
    if |r| == 0 then [] else r[1..]
  }

  /** The items after `update_row_numbers`: item `p` shows the number p + 1, its values unchanged. */
  function Renumbered(view: seq<Row>): (v: seq<Row>)
    ensures |v| == |view|
    ensures forall p :: 0 <= p < |v| ==> v[p] == [Label(p + 1)] + Tail(view[p])
  {
    seq(|view|, p requires 0 <= p < |view| => [Label(p + 1)] + Tail(view[p]))
  }

  /**
   * The index into the table store that the double-click handler computes
   * from an item: `int(values[0])`, read the way Python indexes a list of
   * `size` rows (negative from the end). None where Python raises.
   */
  function RowPosition(values: Row, size: nat): (r: Option<nat>)
    ensures r.Some? <==>
      && |values| > 0 && values[0].Text? && ParseInt(values[0].s).Some?
      && -(size as int) <= ParseInt(values[0].s).value < size as int
    ensures r.Some? ==>
      var k := ParseInt(values[0].s).value;
      r.value < size && r.value as int == if k < 0 then k + size as int else k
  {
    if |values| == 0 || !values[0].Text? then None
    else
      match ParseInt(values[0].s)
      case None => None
      case Some(k) =>
        if -(size as int) <= k < size as int then Some(if k < 0 then (k + size) as nat else k as nat)
        else None
  }

  /** An item that shows the number n addresses row n of the table store. */
  lemma LabelAddressesRow(n: nat, rest: Row, size: nat)
    requires n < size
    ensures RowPosition([Label(n)] + rest, size) == Some(n)
  {
    DecimalRoundTrip(n);
  }

  /** After renumbering, the items show 1, 2, ... with no gap, each addressing its own row. */
  lemma RenumberedRunsFromOne(view: seq<Row>, size: nat)
    requires |view| < size
    ensures forall p :: 0 <= p < |view| ==> RowPosition(Renumbered(view)[p], size) == Some(p + 1)
  {
    forall p | 0 <= p < |view| ensures RowPosition(Renumbered(view)[p], size) == Some(p + 1) {
      LabelAddressesRow(p + 1, Tail(view[p]), size);
    }
  }

  /** Deleting an item and renumbering shows the rows without the deleted one. */
  lemma RenumberAfterRemove(rows: seq<Row>, p: nat)
    requires p < |rows|
    ensures Renumbered(RemoveAt(Numbered(rows), p)) == Numbered(RemoveAt(rows, p))
  {
    var n := Numbered(rows);
    var removed := RemoveAt(n, p);
    var a := Renumbered(removed);
    var b := Numbered(RemoveAt(rows, p));
    forall j | 0 <= j < |a| ensures a[j] == b[j] {
      var k := if j < p then j else j + 1;
      assert removed[j] == n[k] == [Label(k + 1)] + rows[k];
      assert Tail(n[k]) == rows[k];
      assert RemoveAt(rows, p)[j] == rows[k];
    }
  }

  /** Deleting data row p + 1 and renumbering keeps the view in step with the table store. */
  lemma DeleteKeepsSync(data: seq<Row>, p: nat)
    requires p + 1 < |data|
    ensures RemoveAt(data, p + 1)[1..] == RemoveAt(data[1..], p)
    ensures Renumbered(RemoveAt(Numbered(data[1..]), p)) == Numbered(RemoveAt(data, p + 1)[1..])
  {
    var after := RemoveAt(data, p + 1)[1..];
    forall j | 0 <= j < |after| ensures after[j] == RemoveAt(data[1..], p)[j] {
    }
    RenumberAfterRemove(data[1..], p);
  }

  /** Replacing data row p + 1 and its item keeps the view in step with the table store. */
  lemma ReplaceKeepsSync(data: seq<Row>, p: nat, row: Row)
    requires p + 1 < |data|
    ensures Numbered(data[1..])[p := [Label(p + 1)] + row] == Numbered(data[p + 1 := row][1..])
  {
    assert data[p + 1 := row][1..] == data[1..][p := row];
  }

  /** Deleting the last data row and its item, the last item, keeps the view in step with the table store. */
  lemma DeleteLastKeepsSync(data: seq<Row>)
    requires |data| >= 2
    ensures RemoveAt(Numbered(data[1..]), |data| - 2) == Numbered(RemoveAt(data, |data| - 1)[1..])
  {
    assert RemoveAt(data, |data| - 1)[1..] == data[1..|data| - 1];
  }

  /**
   * Deleting item p and renumbering nothing, as the handler does: the items
   * below keep their old numbers. The item now at position p shows data row
   * p + 1 of the new table store but its number addresses row p + 2, and the
   * last item's number lies past the end.
   */
  lemma DeleteLeavesStaleNumbers(data: seq<Row>, p: nat)
    requires p + 2 < |data|
    ensures
      var after, items := RemoveAt(data, p + 1), RemoveAt(Numbered(data[1..]), p);
      && items[p] == [Label(p + 2)] + after[p + 1]
      && (p + 2 < |after| ==> RowPosition(items[p], |after|) == Some(p + 2))
      && RowPosition(items[|items| - 1], |after|) == None
      && items != Numbered(after[1..])
  {
    var after, items := RemoveAt(data, p + 1), RemoveAt(Numbered(data[1..]), p);
    assert items[p] == [Label(p + 2)] + after[p + 1];
    if p + 2 < |after| {
      LabelAddressesRow(p + 2, after[p + 1], |after|);
    }
    var last := |items| - 1;
    assert items[last] == [Label(|after|)] + data[|data| - 1];
    DecimalRoundTrip(|after|);
    DecimalRoundTrip(p + 1);
    assert Numbered(after[1..])[p][0] == Label(p + 1) != Label(p + 2);
  }

  /** A dialog answer as stored: a cancelled or empty answer becomes "". */
  function Answer(a: Option<string>): string
  {
    match a
    case Some(v) => v
    case None => ""
  }

  /** The row `insert_row` builds: one value per view column, in column order. */
  function NewRow(answers: seq<Option<string>>): (r: Row)
    ensures |r| == |answers|
    ensures forall i :: 0 <= i < |r| ==> r[i].Text? && (r[i].s == "" <==> answers[i] in {None, Some("")})
    ensures forall i :: 0 <= i < |r| ==> answers[i].Some? ==> r[i] == Text(answers[i].value)
  {
    TextRow(seq(|answers|, i requires 0 <= i < |answers| => Answer(answers[i])))
  }

  /** The fields of one clipboard line. */
  function Fields(line: string): seq<string>
  {
    Split(line, '\t')
  }

  /** The rows `paste_data` appends for these lines: those with exactly `width` fields, in order. */
  function AcceptedLines(lines: seq<string>, width: nat): (rows: seq<Row>)
    ensures |rows| <= |lines|
    ensures forall i :: 0 <= i < |rows| ==> |rows[i]| == width
  {
    if |lines| == 0 then []
    else
      var last := lines[|lines| - 1];
      AcceptedLines(lines[..|lines| - 1], width)
        + (if |Fields(last)| == width then [TextRow(Fields(last))] else [])
  }

  /** Lines are accepted one by one, independently, in clipboard order. */
  lemma {:induction false} AcceptedLinesAppend(a: seq<string>, b: seq<string>, width: nat)
    ensures AcceptedLines(a + b, width) == AcceptedLines(a, width) + AcceptedLines(b, width)
  {
    if |b| == 0 {
      assert a + b == a;
    } else {
      var s := a + b;
      assert s[..|s| - 1] == a + b[..|b| - 1];
      assert s[|s| - 1] == b[|b| - 1];
      AcceptedLinesAppend(a, b[..|b| - 1], width);
    }
  }

  /** A line is accepted exactly when it has `width` fields. */
  lemma AcceptedLine(line: string, width: nat)
    ensures AcceptedLines([line], width) == if |Fields(line)| == width then [TextRow(Fields(line))] else []
  {
    assert [line][..0] == [];
  }

  /** Lines that all have `width` fields are all accepted. */
  lemma {:induction false} AcceptedAll(lines: seq<string>, width: nat)
    requires forall i :: 0 <= i < |lines| ==> |Fields(lines[i])| == width
    ensures AcceptedLines(lines, width) == seq(|lines|, i requires 0 <= i < |lines| => TextRow(Fields(lines[i])))
  {
    if |lines| > 0 {
      AcceptedAll(lines[..|lines| - 1], width);
    }
  }

  /** Tab-separated text of one row. */
  function TabLine(row: seq<string>): string
    requires |row| >= 1
  {
    Join(row, '\t')
  }

  lemma {:induction false} JoinAvoids(parts: seq<string>, sep: char, c: char)
    requires |parts| >= 1 && c != sep
    requires forall i :: 0 <= i < |parts| ==> c !in parts[i]
    ensures c !in Join(parts, sep)
  {
    if |parts| > 1 { JoinAvoids(parts[1..], sep, c); }
  }

  /**
   * Pasting rows copied as tab-separated lines, one per row, appends exactly
   * those rows when each has `width` fields free of tabs and newlines.
   */
  lemma PasteRoundTrip(rows: seq<seq<string>>, width: nat)
    requires |rows| >= 1 && width >= 1
    requires forall i :: 0 <= i < |rows| ==> |rows[i]| == width
    requires forall i, j :: 0 <= i < |rows| && 0 <= j < |rows[i]| ==> '\t' !in rows[i][j] && '\n' !in rows[i][j]
    ensures
      var lines := seq(|rows|, i requires 0 <= i < |rows| => TabLine(rows[i]));
      AcceptedLines(Split(Join(lines, '\n'), '\n'), width)
        == seq(|rows|, i requires 0 <= i < |rows| => TextRow(rows[i]))
  {
    var lines := seq(|rows|, i requires 0 <= i < |rows| => TabLine(rows[i]));
    forall i | 0 <= i < |rows| ensures '\n' !in lines[i] && Fields(lines[i]) == rows[i] {
      JoinAvoids(rows[i], '\t', '\n');
      SplitJoin(rows[i], '\t');
    }
    SplitJoin(lines, '\n');
    AcceptedAll(lines, width);
  }

  /**
   * A row appended by paste (or by insert) has as many values as the view
   * has columns, one more than the header: the table no longer fits its
   * header, so a later sort or merge takes its error path.
   */
  lemma AppendedRowBreaksTable(data: seq<Row>, row: Row, column: Option<Cell>, reverse: bool,
                               header: Row, incoming: seq<Row>, parse: string -> Option<real>)
    requires |data| > 0 && |row| == |[IndexHeading] + data[0]|
    requires Aligned(header, incoming)
    ensures !Aligned(data[0], (data + [row])[1..])
    ensures SortTable(data + [row], column, reverse).None?
    ensures MergeTables(data + [row], header, incoming, parse) == Failed(RaggedRows)
  {
    var t := data + [row];
    assert t[1..][|t| - 2] == row;
  }

  /** One more clipboard line appends its row to whatever came before, or nothing. */
  lemma PasteStep(start: seq<Row>, lines: seq<string>, i: nat, width: nat)
    requires i < |lines|
    ensures |Fields(lines[i])| == width ==>
      start + AcceptedLines(lines[..i + 1], width)
        == start + AcceptedLines(lines[..i], width) + [TextRow(Fields(lines[i]))]
    ensures |Fields(lines[i])| != width ==>
      start + AcceptedLines(lines[..i + 1], width) == start + AcceptedLines(lines[..i], width)
  {
    assert lines[..i + 1][..i] == lines[..i];
    var accepted := AcceptedLines(lines[..i], width);
    if |Fields(lines[i])| == width {
      assert start + (accepted + [TextRow(Fields(lines[i]))]) == start + accepted + [TextRow(Fields(lines[i]))];
    } else {
      assert accepted + [] == accepted;
    }
  }

  /** The table store of a loaded file: every cell text. */
  function TextTable(rows: seq<seq<string>>): (t: seq<Row>)
    ensures |t| == |rows|
    ensures forall i :: 0 <= i < |t| ==> t[i] == TextRow(rows[i])
  {
    seq(|rows|, i requires 0 <= i < |rows| => TextRow(rows[i]))
  }

  class Editor {
    var data: seq<Row>
    var sortColumn: Option<Cell>
    var sortReverse: bool
    var columns: seq<Cell>
    var view: seq<Row>

    /** The view shows the table store as `display_data` lays it out. */
    ghost predicate Synced()
      reads this
    {
      && |data| > 0
      && columns == [IndexHeading] + data[0]
      && view == Numbered(data[1..])
    }

    function SortStateOf(): SortState
      reads this
    {
      SortState(sortColumn, sortReverse)
    }

    constructor ()
      ensures data == [] && sortColumn == None && !sortReverse
      ensures columns == [] && view == []
    {
      data := [];
      sortColumn := None;
      sortReverse := false;
      columns := [];
      view := [];
    }

    /**
     * `display_data`: clear the view, then show the header's columns after
     * the row-number column and one numbered item per data row. With an
     * empty table store, reading the header raises IndexError once the
     * items are cleared.
     */
    method Display()
      modifies this
      ensures data == old(data) && SortStateOf() == old(SortStateOf())
      ensures |data| > 0 ==> Synced()
      ensures |data| == 0 ==> view == [] && columns == old(columns)
    {
      view := [];
      if |data| == 0 {
        return;
      }
      columns := [IndexHeading] + data[0];
      var i := 1;
      while i < |data|
        invariant 1 <= i <= |data|
        invariant view == Numbered(data[1..i])
        invariant data == old(data) && SortStateOf() == old(SortStateOf())
        invariant columns == [IndexHeading] + data[0]
      {
        assert data[1..i + 1] == data[1..i] + [data[i]];
        view := view + [[Label(i)] + data[i]];
        i := i + 1;
      }
      assert data[1..i] == data[1..];
    }

    /** `load_csv` with the rows the CSV reader produced: they replace the table store. */
    method Load(rows: seq<seq<string>>)
      modifies this
      ensures data == TextTable(rows) && SortStateOf() == old(SortStateOf())
      ensures |rows| > 0 ==> Synced()
      ensures |rows| == 0 ==> view == [] && columns == old(columns)
    {
      data := TextTable(rows);
      Display();
    }

    /**
     * `insert_row`: ask for one value per view column (the row-number
     * column included) and append the row to the view and the table store.
     */
    method InsertRow(answers: seq<Option<string>>)
      requires |answers| == |columns|
      modifies this
      ensures data == old(data) + [NewRow(answers)]
      ensures view == old(view) + [NewRow(answers)]
      ensures columns == old(columns) && SortStateOf() == old(SortStateOf())
    {
      var newRow: Row := [];
      var i := 0;
      while i < |columns|
        invariant 0 <= i <= |columns|
        invariant newRow == NewRow(answers[..i])
      {
        assert answers[..i + 1] == answers[..i] + [answers[i]];
        newRow := newRow + [Text(Answer(answers[i]))];
        i := i + 1;
      }
      assert answers[..i] == answers;
      view := view + [newRow];
      data := data + [newRow];
    }

    /**
     * `paste_data`: split the clipboard text into lines and each line into
     * tab-separated fields; append, to the view and to the table store, each
     * line with as many fields as the view has columns.
     */
    method PasteData(clipboard: string)
      modifies this
      ensures data == old(data) + AcceptedLines(Split(clipboard, '\n'), |columns|)
      ensures view == old(view) + AcceptedLines(Split(clipboard, '\n'), |columns|)
      ensures columns == old(columns) && SortStateOf() == old(SortStateOf())
    {
      var lines := Split(clipboard, '\n');
      var width := |columns|;
      ghost var startData, startView := data, view;
      var i := 0;
      while i < |lines|
        invariant 0 <= i <= |lines|
        invariant data == startData + AcceptedLines(lines[..i], width)
        invariant view == startView + AcceptedLines(lines[..i], width)
        invariant columns == old(columns) && sortColumn == old(sortColumn) && sortReverse == old(sortReverse)
      {
        var values := Fields(lines[i]);
        PasteStep(startData, lines, i, width);
        PasteStep(startView, lines, i, width);
        if |values| == width {
          view := view + [TextRow(values)];
          data := data + [TextRow(values)];
        }
        i := i + 1;
      }
      assert lines[..i] == lines;
    }

    /**
     * `merge_csv` with the second file already read into `header` and
     * `incoming`: on success the merged table replaces the table store and
     * is shown again; on any failure nothing changes.
     */
    method Merge(header: Row, incoming: seq<Row>, parse: string -> Option<real>) returns (r: MergeResult)
      requires Aligned(header, incoming)
      modifies this
      ensures r == MergeTables(old(data), header, incoming, parse)
      ensures r.Failed? ==> data == old(data) && view == old(view) && columns == old(columns)
      ensures r.Merged? ==> data == r.table && Synced()
      ensures SortStateOf() == old(SortStateOf())
    {
      r := MergeTables(data, header, incoming, parse);
      if r.Merged? {
        data := r.table;
        Display();
      }
    }

    /**
     * `sort_data`: replace the data rows by the rows ordered on the sort
     * column and show them again; where pandas raises, nothing changes.
     */
    method SortData()
      modifies this
      ensures SortStateOf() == old(SortStateOf())
      ensures SortTable(old(data), sortColumn, sortReverse).Some? ==>
        data == SortTable(old(data), sortColumn, sortReverse).value && Synced()
      ensures SortTable(old(data), sortColumn, sortReverse).None? ==>
        data == old(data) && view == old(view) && columns == old(columns)
    {
      var sorted := SortTable(data, sortColumn, sortReverse);
      if sorted.Some? {
        data := sorted.value;
        Display();
      }
    }

    /**
     * `on_header_click` on the heading of view column `column` (0-based):
     * the row-number column, or a column past the last, does nothing;
     * otherwise the sort state takes the next step and the data is sorted.
     */
    method HeaderClick(column: nat)
      modifies this
      ensures column == 0 || column >= |old(columns)| ==>
        data == old(data) && view == old(view) && columns == old(columns)
        && SortStateOf() == old(SortStateOf())
      ensures 0 < column < |old(columns)| ==>
        var s := NextSortState(old(SortStateOf()), old(columns)[column]);
        && SortStateOf() == s
        && (SortTable(old(data), s.column, s.reverse).Some? ==>
              data == SortTable(old(data), s.column, s.reverse).value && Synced())
        && (SortTable(old(data), s.column, s.reverse).None? ==>
              data == old(data) && view == old(view) && columns == old(columns))
    {
      if column == 0 || column >= |columns| {
        return;
      }
      var name := columns[column];
      if sortColumn == Some(name) {
        sortReverse := !sortReverse;
      } else {
        sortReverse := false;
      }
      sortColumn := Some(name);
      SortData();
    }

    /**
     * `update_row_numbers` as written. For each item it reads the values back
     * from Tk, which hands them over as a tuple, and builds the new values as
     * `[i] + values[1:]`: a list plus a tuple, which raises TypeError on the
     * first item before any item has changed. With no items it does nothing.
     */
    method UpdateRowNumbers() returns (raised: bool)
      ensures raised <==> |view| > 0
    {
      raised := false;
      var i := 0;
      while i < |view| && !raised
        invariant 0 <= i <= |view|
        invariant raised <==> i > 0
      {
        // `[i + 1] + values[1:]` with `values` a tuple: TypeError
        raised := true;
        i := i + 1;
      }
    }

    /**
     * `update_row_numbers` as evidently intended, with the values read back
     * made a list: every item shows its 1-based position as its number, the
     * rest of its values unchanged.
     */
    method RenumberItems()
      modifies this
      ensures view == Renumbered(old(view))
      ensures data == old(data) && columns == old(columns) && SortStateOf() == old(SortStateOf())
    {
      var i := 0;
      while i < |view|
        invariant 0 <= i <= |view| && |view| == |old(view)|
        invariant forall p :: 0 <= p < i ==> view[p] == [Label(p + 1)] + Tail(old(view)[p])
        invariant forall p :: i <= p < |view| ==> view[p] == old(view)[p]
        invariant data == old(data) && columns == old(columns) && SortStateOf() == old(SortStateOf())
      {
        view := view[i := [Label(i + 1)] + Tail(view[i])];
        i := i + 1;
      }
    }

    /**
     * `on_row_double_click` on item `item` (None: the click hit no item),
     * once the row dialog has closed with `deleteFlag` and `result`. The row
     * addressed is the one the item's number names; a number that does not
     * parse or is out of range raises, and nothing changes. After a delete
     * the renumbering raises (see `UpdateRowNumbers`), so the remaining
     * items keep the numbers they had.
     */
    method RowDoubleClick(item: Option<nat>, deleteFlag: bool, result: Option<seq<string>>)
      requires item.Some? ==> item.value < |view|
      modifies this
      ensures columns == old(columns) && SortStateOf() == old(SortStateOf())
      ensures item.None? || |old(data)| == 0 ==> data == old(data) && view == old(view)
      ensures item.Some? && |old(data)| > 0 ==>
        var p := item.value;
        var pos := RowPosition(old(view)[p], |old(data)|);
        if pos.None? || (!deleteFlag && (result.None? || result.value == [])) then
          data == old(data) && view == old(view)
        else if deleteFlag then
          data == RemoveAt(old(data), pos.value) && view == RemoveAt(old(view), p)
        else
          data == old(data)[pos.value := TextRow(result.value)]
          && view == old(view)[p := [old(view)[p][0]] + TextRow(result.value)]
      ensures old(Synced()) && item.Some? && deleteFlag ==>
        data == RemoveAt(old(data), item.value + 1) && view == RemoveAt(Numbered(old(data)[1..]), item.value)
      ensures old(Synced()) && item.Some? && deleteFlag && item.value == |old(view)| - 1 ==> Synced()
      ensures old(Synced()) && item.Some? && !deleteFlag && result.Some? && result.value != [] ==>
        Synced() && data == old(data)[item.value + 1 := TextRow(result.value)]
    {
      if item.None? {
        return;
      }
      var p := item.value;
      var values := view[p];
      if |data| == 0 {
        return;
      }
      ghost var synced := Synced();
      ghost var before := data;
      if synced {
        assert values == [Label(p + 1)] + data[p + 1];
        LabelAddressesRow(p + 1, data[p + 1], |data|);
      }
      if deleteFlag {
        var pos := RowPosition(values, |data|);
        if pos.Some? {
          data := RemoveAt(data, pos.value);
          view := RemoveAt(view, p);
          var raised := UpdateRowNumbers();
          if synced && p == |view| {
            DeleteLastKeepsSync(before);
          }
        }
      } else if result.Some? && result.value != [] {
        var pos := RowPosition(values, |data|);
        if pos.Some? {
          data := data[pos.value := TextRow(result.value)];
          view := view[p := [values[0]] + TextRow(result.value)];
          if synced {
            ReplaceKeepsSync(before, p, TextRow(result.value));
          }
        }
      }
    }
  }
}
