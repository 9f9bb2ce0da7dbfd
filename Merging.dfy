/**
 * Merging a second CSV file into the table store: the header check, the
 * per-table numeric coercion, the concatenation, the keep-first removal of
 * repeated rows and the count of rows skipped.
 *
 * How pandas reads a number out of text is not modelled: it is the parameter
 * `parse`, which gives the number a text cell stands for, or None.
 */
module Merging {
  import opened Wrappers
  import opened Cells

  // ---------------------------------------------------------------------
  // Numeric coercion (`convert_numeric`)
  // ---------------------------------------------------------------------

  /** `pd.to_numeric` accepts the cell: it already is a number or its text parses. */
  predicate Parses(c: Cell, parse: string -> Option<real>)
  {
    match c
    case Number(_) => true
    case Text(s) => parse(s).Some?
  }

  function AsNumber(c: Cell, parse: string -> Option<real>): real
    requires Parses(c, parse)
  {
    match c
    case Number(n) => n
    case Text(s) => parse(s).value
  }

  /** Every cell of column `c` is accepted, so the whole column converts. */
  predicate NumericColumn(rows: seq<Row>, c: nat, parse: string -> Option<real>)
  {
    forall i :: 0 <= i < |rows| ==> c < |rows[i]| && Parses(rows[i][c], parse)
  }

  function CoerceCell(rows: seq<Row>, i: nat, c: nat, parse: string -> Option<real>): Cell
    requires i < |rows| && c < |rows[i]|
  {
    if NumericColumn(rows, c, parse) then Number(AsNumber(rows[i][c], parse)) else rows[i][c]
  }

  /**
   * `convert_numeric` on one table: each column whose cells all convert
   * becomes numbers; a column with one cell that does not stays as it was.
   */
  function ConvertNumeric(rows: seq<Row>, parse: string -> Option<real>): (r: seq<Row>)
    ensures |r| == |rows| && forall i :: 0 <= i < |r| ==> |r[i]| == |rows[i]|
    ensures forall i, c: nat :: 0 <= i < |r| && NumericColumn(rows, c, parse) ==>
      c < |rows[i]| && r[i][c] == Number(AsNumber(rows[i][c], parse))
    ensures forall i, c :: 0 <= i < |r| && 0 <= c < |r[i]| && !NumericColumn(rows, c, parse) ==>
      r[i][c] == rows[i][c]
  {
    seq(|rows|, i requires 0 <= i < |rows| =>
      seq(|rows[i]|, c requires 0 <= c < |rows[i]| => CoerceCell(rows, i, c, parse)))
  }

  /** Converting a converted table changes nothing more. */
  lemma ConvertNumericIdempotent(rows: seq<Row>, parse: string -> Option<real>)
    ensures ConvertNumeric(ConvertNumeric(rows, parse), parse) == ConvertNumeric(rows, parse)
  {
    var r := ConvertNumeric(rows, parse);
    var rr := ConvertNumeric(r, parse);
    forall i, c | 0 <= i < |r| && 0 <= c < |r[i]| ensures rr[i][c] == r[i][c] {
      if NumericColumn(rows, c, parse) {
        assert forall m :: 0 <= m < |r| ==> c < |r[m]| && r[m][c].Number?;
      } else {
        var m :| 0 <= m < |rows| && !(c < |rows[m]| && Parses(rows[m][c], parse));
        assert |r[m]| == |rows[m]|;
        if c < |rows[m]| {
          assert r[m][c] == rows[m][c];
        }
        assert !NumericColumn(r, c, parse);
      }
    }
    assert forall i :: 0 <= i < |r| ==> rr[i] == r[i];
  }

  /**
   * The two tables are converted each on its own. A column that converts in
   * the current table but not in the incoming one leaves the two sides of
   * different kinds, so an incoming row with text in that column never
   * equals a converted current row.
   */
  lemma IndependentConversion(current: seq<Row>, incoming: seq<Row>, c: nat, j: nat, parse: string -> Option<real>)
    requires NumericColumn(current, c, parse) && !NumericColumn(incoming, c, parse)
    requires j < |incoming| && c < |incoming[j]| && incoming[j][c].Text?
    ensures ConvertNumeric(incoming, parse)[j] !in ConvertNumeric(current, parse)
  {
    var cur := ConvertNumeric(current, parse);
    var inc := ConvertNumeric(incoming, parse);
    assert inc[j][c] == incoming[j][c];
    forall i | 0 <= i < |cur| ensures cur[i] != inc[j] {
      assert cur[i][c].Number?;
    }
  }

  // ---------------------------------------------------------------------
  // drop_duplicates(keep='first')
  // ---------------------------------------------------------------------

  /** Each value at its first occurrence only, in the original order. */
  function Dedup(s: seq<Row>): (r: seq<Row>)
    ensures |r| <= |s|
    ensures forall x :: x in r <==> x in s
    ensures NoDuplicates(r)
  {
    if |s| == 0 then []
    else
      var init := s[..|s| - 1];
      assert s == init + [s[|s| - 1]];
      if s[|s| - 1] in init then Dedup(init) else Dedup(init) + [s[|s| - 1]]
  }

  /** The values of `b`, each at its first occurrence, that do not already occur in `seen`. */
  function Fresh(seen: seq<Row>, b: seq<Row>): (r: seq<Row>)
    ensures |r| <= |b|
    ensures forall x :: x in r <==> x in b && x !in seen
  {
    if |b| == 0 then []
    else
      var init := b[..|b| - 1];
      assert b == init + [b[|b| - 1]];
      if b[|b| - 1] in seen + init then Fresh(seen, init) else Fresh(seen, init) + [b[|b| - 1]]
  }

  /** Deduplicating one more value appends it unless it was already there. */
  lemma DedupSnoc(s: seq<Row>, x: Row)
    ensures Dedup(s + [x]) == if x in s then Dedup(s) else Dedup(s) + [x]
  {
    var t := s + [x];
    assert t[..|t| - 1] == s;
  }

  lemma FreshSnoc(seen: seq<Row>, b: seq<Row>, x: Row)
    ensures Fresh(seen, b + [x]) == if x in seen + b then Fresh(seen, b) else Fresh(seen, b) + [x]
  {
    var t := b + [x];
    assert t[..|t| - 1] == b;
  }

  /** Removing repeats from `a + b` keeps what survives of `a`, then the new values of `b`. */
  lemma {:induction false} DedupAppend(a: seq<Row>, b: seq<Row>)
    ensures Dedup(a + b) == Dedup(a) + Fresh(a, b)
  {
    if |b| == 0 {
      assert a + b == a;
    } else {
      var init := b[..|b| - 1];
      var x := b[|b| - 1];
      var kept, added := Dedup(a + init), Fresh(a, init);
      assert kept == Dedup(a) + added by {
        DedupAppend(a, init);
      }
      assert Dedup(a + b) == (if x in a + init then kept else kept + [x]) by {
        assert a + b == (a + init) + [x];
        DedupSnoc(a + init, x);
      }
      assert Fresh(a, b) == (if x in a + init then added else added + [x]) by {
        assert b == init + [x];
        FreshSnoc(a, init, x);
      }
      assert Dedup(a) + added + [x] == Dedup(a) + (added + [x]);
    }
  }

  /** A sequence without repeats is left as it is. */
  lemma {:induction false} DedupDistinct(s: seq<Row>)
    requires NoDuplicates(s)
    ensures Dedup(s) == s
  {
    if |s| > 0 {
      var init := s[..|s| - 1];
      DedupDistinct(init);
      assert s == init + [s[|s| - 1]];
    }
  }

  /** The position of the first occurrence of `x` in `s`. */
  function FirstAt(s: seq<Row>, x: Row): (i: nat)
    requires x in s
    ensures i < |s| && s[i] == x && x !in s[..i]
  {
    if s[0] == x then 0
    else
      var j := FirstAt(s[1..], x);
      assert s[..j + 1] == [s[0]] + s[1..][..j];
      j + 1
  }

  /** Appending a value moves no first occurrence, and a new value first occurs at the end. */
  lemma FirstAtExtend(s: seq<Row>, x: Row, y: Row)
    requires y in s + [x]
    ensures y in s ==> FirstAt(s + [x], y) == FirstAt(s, y)
    ensures y !in s ==> FirstAt(s + [x], y) == |s|
  {
    var a := FirstAt(s + [x], y);
    if y in s {
      var b := FirstAt(s, y);
      assert (s + [x])[b] == y;
    }
  }

  /** `keep='first'`: the kept values come in the order of their first occurrences. */
  lemma {:induction false} DedupFirstOrder(s: seq<Row>)
    ensures forall i, j :: 0 <= i < j < |Dedup(s)| ==> FirstAt(s, Dedup(s)[i]) < FirstAt(s, Dedup(s)[j])
  {
    if |s| > 0 {
      var init, x := s[..|s| - 1], s[|s| - 1];
      assert s == init + [x];
      DedupFirstOrder(init);
      DedupSnoc(init, x);
      var d, e := Dedup(s), Dedup(init);
      forall i, j | 0 <= i < j < |d| ensures FirstAt(s, d[i]) < FirstAt(s, d[j]) {
        FirstAtExtend(init, x, d[i]);
        FirstAtExtend(init, x, d[j]);
        if j < |e| {
          assert d[i] == e[i] && d[j] == e[j];
        } else {
          assert d[i] == e[i] && d[j] == x && x !in init;
        }
      }
    }
  }

  // ---------------------------------------------------------------------
  // merge_csv
  // ---------------------------------------------------------------------

  datatype MergeError =
    | NoHeader       // the table store is empty: `self.data[0]` raises IndexError
    | RaggedRows     // a data row does not fit the header: pandas raises ValueError
    | ColumnsDiffer  // the headers differ: the "columns do not match" error dialog

  datatype MergeResult = Merged(table: seq<Row>, skipped: int) | Failed(error: MergeError)

  /**
   * `merge_csv` once the second file has been read into `header` and
   * `incoming`: the new table store and the number of skipped rows, or the
   * reason nothing changes.
   */
  function MergeTables(current: seq<Row>, header: Row, incoming: seq<Row>, parse: string -> Option<real>): (r: MergeResult)
    requires Aligned(header, incoming)
    ensures r == Failed(NoHeader) <==> |current| == 0
    ensures r == Failed(RaggedRows) <==> |current| > 0 && !Aligned(current[0], current[1..])
    ensures r == Failed(ColumnsDiffer) <==>
      |current| > 0 && Aligned(current[0], current[1..]) && current[0] != header
    ensures r.Merged? ==>
      var cur := ConvertNumeric(current[1..], parse);
      var inc := ConvertNumeric(incoming, parse);
      && current[0] == header
      && |r.table| >= 1 && r.table[0] == header
      && Aligned(header, r.table[1..])
      && NoDuplicates(r.table[1..])
      && (forall x :: x in r.table[1..] <==> x in cur || x in inc)
      && r.skipped == |cur| + |inc| - (|r.table| - 1)
      && r.skipped >= 0
  {
    if |current| == 0 then Failed(NoHeader)
    else if !Aligned(current[0], current[1..]) then Failed(RaggedRows)
    else if current[0] != header then Failed(ColumnsDiffer)
    else
      var cur := ConvertNumeric(current[1..], parse);
      var inc := ConvertNumeric(incoming, parse);
      var merged := Dedup(cur + inc);
      assert Aligned(header, merged) by {
        forall i | 0 <= i < |merged| ensures |merged[i]| == |header| {
          assert merged[i] in cur + inc;
        }
      }
      assert ([header] + merged)[1..] == merged;
      Merged([header] + merged, |inc| - (|merged| - |cur|))
  }

  /**
   * The merged data rows are what survives of the current rows, in order,
   * followed by the incoming rows not seen before, in order; when the
   * current rows have no repeats they all come first, unchanged.
   */
  lemma MergeKeepsCurrentFirst(current: seq<Row>, header: Row, incoming: seq<Row>, parse: string -> Option<real>)
    requires Aligned(header, incoming)
    requires MergeTables(current, header, incoming, parse).Merged?
    ensures
      var cur := ConvertNumeric(current[1..], parse);
      var inc := ConvertNumeric(incoming, parse);
      var table := MergeTables(current, header, incoming, parse).table;
      && table[1..] == Dedup(cur) + Fresh(cur, inc)
      && (NoDuplicates(cur) ==> table[1..] == cur + Fresh(cur, inc))
  {
    var cur := ConvertNumeric(current[1..], parse);
    var inc := ConvertNumeric(incoming, parse);
    DedupAppend(cur, inc);
    if NoDuplicates(cur) { DedupDistinct(cur); }
  }

  /**
   * The skip count is the number of rows dropped: incoming rows that repeat
   * an earlier row, plus repeats inside the current table itself. When the
   * current table has no repeats it is exactly the incoming rows dropped.
   */
  lemma MergeSkipCount(current: seq<Row>, header: Row, incoming: seq<Row>, parse: string -> Option<real>)
    requires Aligned(header, incoming)
    requires MergeTables(current, header, incoming, parse).Merged?
    ensures
      var cur := ConvertNumeric(current[1..], parse);
      var inc := ConvertNumeric(incoming, parse);
      var r := MergeTables(current, header, incoming, parse);
      && r.skipped == (|inc| - |Fresh(cur, inc)|) + (|cur| - |Dedup(cur)|)
      && (NoDuplicates(cur) ==> r.skipped == |incoming| - |Fresh(cur, inc)|)
  {
    var cur := ConvertNumeric(current[1..], parse);
    var inc := ConvertNumeric(incoming, parse);
    DedupAppend(cur, inc);
    if NoDuplicates(cur) { DedupDistinct(cur); }
  }

  /**
   * Merging is symmetric in content: merging B into A and A into B give the
   * same set of data rows; only which copy of a repeated row is kept, and
   * the order, differ.
   */
  lemma MergeSameContent(a: seq<Row>, b: seq<Row>, parse: string -> Option<real>)
    requires |a| > 0 && |b| > 0 && a[0] == b[0]
    requires Aligned(a[0], a[1..]) && Aligned(b[0], b[1..])
    ensures
      var ab := MergeTables(a, b[0], b[1..], parse);
      var ba := MergeTables(b, a[0], a[1..], parse);
      && ab.Merged? && ba.Merged?
      && (forall x :: x in ab.table[1..] <==> x in ba.table[1..])
  {
  }
}
