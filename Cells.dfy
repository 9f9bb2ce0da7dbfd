/**
 * The values the table store holds. A cell is the text read from a CSV file,
 * typed by the user or pasted, or a number once a merge has coerced a column
 * to numbers. Row 0 of a table is the header; the rest are data rows.
 */
module Cells {
  import opened Strings

  datatype Cell = Text(s: string) | Number(n: real)

  type Row = seq<Cell>

  /** A row of text cells, as `csv.reader`, the clipboard and the dialogs produce. */
  function TextRow(fields: seq<string>): (r: Row)
    ensures |r| == |fields|
    ensures forall i :: 0 <= i < |r| ==> r[i] == Text(fields[i])
  {
    seq(|fields|, i requires 0 <= i < |fields| => Text(fields[i]))
  }

  /** The synthetic row number the view shows in its first column, as Tk stores it: text. */
  function Label(n: nat): Cell
  {
    Text(Decimal(n))
  }

  /** Every data row has exactly one cell per header column. */
  predicate Aligned(header: Row, rows: seq<Row>)
  {
    forall i :: 0 <= i < |rows| ==> |rows[i]| == |header|
  }

  /** Python's `del s[i]`: the sequence without its element at `i`. */
  function RemoveAt(s: seq<Row>, i: nat): (r: seq<Row>)
    requires i < |s|
    ensures |r| == |s| - 1
    ensures forall j :: 0 <= j < |r| ==> r[j] == if j < i then s[j] else s[j + 1]
  {
    s[..i] + s[i + 1..]
  }

  predicate NoDuplicates<T(==)>(s: seq<T>)
  {
    forall i, j :: 0 <= i < j < |s| ==> s[i] != s[j]
  }

  /**
   * Python's `<=` between two cells of one kind: numbers by value, text by
   * code point. Python refuses to compare a number with text; the order here
   * puts numbers first, and the sort below fails before using it on such a
   * pair.
   */
  predicate CellLe(a: Cell, b: Cell)
  {
    match (a, b)
    case (Number(x), Number(y)) => x <= y
    case (Text(s), Text(t)) => StrLe(s, t)
    case (Number(_), Text(_)) => true
    case (Text(_), Number(_)) => false
  }

  lemma CellLeReflexive(a: Cell)
    ensures CellLe(a, a)
  {
    if a.Text? { StrLeReflexive(a.s); }
  }

  lemma CellLeTotal(a: Cell, b: Cell)
    ensures CellLe(a, b) || CellLe(b, a)
  {
    if a.Text? && b.Text? { StrLeTotal(a.s, b.s); }
  }

  lemma CellLeTransitive(a: Cell, b: Cell, c: Cell)
    requires CellLe(a, b) && CellLe(b, c)
    ensures CellLe(a, c)
  {
    if a.Text? && b.Text? && c.Text? { StrLeTransitive(a.s, b.s, c.s); }
  }

  lemma CellLeAntisymmetric(a: Cell, b: Cell)
    requires CellLe(a, b) && CellLe(b, a)
    ensures a == b
  {
    if a.Text? && b.Text? { StrLeAntisymmetric(a.s, b.s); }
  }
}
