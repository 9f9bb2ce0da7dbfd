/**
 * Header-click sorting: the state machine that decides the column and the
 * direction, and the sort of the data rows by one column (the header stays
 * first). The order of a sorted result is specified, not the algorithm that
 * produces it: rows with equal keys may come in any order.
 */
module Sorting {
  import opened Wrappers
  import opened Strings
  import opened Cells

  /** The column the table is sorted by (None before the first click) and whether descending. */
  datatype SortState = SortState(column: Option<Cell>, reverse: bool)

  /**
   * A click on the heading of the column named `name`: the same column again
   * flips the direction, any other column starts ascending.
   */
  function NextSortState(s: SortState, name: Cell): (r: SortState)
    ensures r.column == Some(name)
    ensures s.column == Some(name) ==> r.reverse == !s.reverse
    ensures s.column != Some(name) ==> !r.reverse
  {
    SortState(Some(name), if s.column == Some(name) then !s.reverse else false)
  }

  /** Two clicks on one heading sort that column once each way. */
  lemma ClickTwiceFlips(s: SortState, name: Cell)
    ensures NextSortState(NextSortState(s, name), name).column == Some(name)
    ensures NextSortState(NextSortState(s, name), name).reverse == !NextSortState(s, name).reverse
  {
  }

  /** Whether key `a` may come before key `b` in the chosen direction. */
  predicate Before(a: Cell, b: Cell, reverse: bool)
  {
    if reverse then CellLe(b, a) else CellLe(a, b)
  }

  lemma BeforeTotal(a: Cell, b: Cell, reverse: bool)
    ensures Before(a, b, reverse) || Before(b, a, reverse)
  {
    CellLeTotal(a, b);
  }

  lemma BeforeTransitive(a: Cell, b: Cell, c: Cell, reverse: bool)
    requires Before(a, b, reverse) && Before(b, c, reverse)
    ensures Before(a, c, reverse)
  {
    if reverse { CellLeTransitive(c, b, a); } else { CellLeTransitive(a, b, c); }
  }

  predicate HasColumn(rows: seq<Row>, k: nat)
  {
    forall i :: 0 <= i < |rows| ==> k < |rows[i]|
  }

  /** The rows are ordered by column `k`, ascending unless `reverse`. */
  predicate SortedBy(rows: seq<Row>, k: nat, reverse: bool)
    requires HasColumn(rows, k)
  {
    forall i, j :: 0 <= i < j < |rows| ==> Before(rows[i][k], rows[j][k], reverse)
  }

  /** Python can compare the keys with one another: all text or all numbers. */
  predicate Homogeneous(rows: seq<Row>, k: nat)
    requires HasColumn(rows, k)
  {
    || (forall i :: 0 <= i < |rows| ==> rows[i][k].Text?)
    || (forall i :: 0 <= i < |rows| ==> rows[i][k].Number?)
  }

  function InsertByKey(x: Row, s: seq<Row>, k: nat, reverse: bool): (r: seq<Row>)
    requires k < |x| && HasColumn(s, k)
    ensures |r| == |s| + 1 && HasColumn(r, k)
    ensures multiset(r) == multiset(s) + multiset{x}
  {
    if |s| == 0 then [x]
    else if Before(x[k], s[0][k], reverse) then [x] + s
    else
      assert s == [s[0]] + s[1..];
      [s[0]] + InsertByKey(x, s[1..], k, reverse)
  }

  lemma {:induction false} InsertSorted(x: Row, s: seq<Row>, k: nat, reverse: bool)
    requires k < |x| && HasColumn(s, k) && SortedBy(s, k, reverse)
    ensures SortedBy(InsertByKey(x, s, k, reverse), k, reverse)
  {
    if |s| > 0 {
      if Before(x[k], s[0][k], reverse) {
        forall j | 0 <= j < |s| ensures Before(x[k], s[j][k], reverse) {
          if j > 0 { BeforeTransitive(x[k], s[0][k], s[j][k], reverse); }
        }
        SortedCons(x, s, k, reverse);
      } else {
        BeforeTotal(x[k], s[0][k], reverse);
        var rest := InsertByKey(x, s[1..], k, reverse);
        InsertSorted(x, s[1..], k, reverse);
        HeadBeforeInserted(x, s, rest, k, reverse);
        SortedCons(s[0], rest, k, reverse);
      }
    }
  }

  /** A row whose key comes before every key of sorted rows can go in front of them. */
  lemma SortedCons(y: Row, t: seq<Row>, k: nat, reverse: bool)
    requires k < |y| && HasColumn(t, k) && SortedBy(t, k, reverse)
    requires forall j :: 0 <= j < |t| ==> Before(y[k], t[j][k], reverse)
    ensures HasColumn([y] + t, k) && SortedBy([y] + t, k, reverse)
  {
    var r := [y] + t;
    forall i, j | 0 <= i < j < |r| ensures Before(r[i][k], r[j][k], reverse) {
      if i > 0 {
        assert r[i] == t[i - 1] && r[j] == t[j - 1];
      } else {
        assert r[j] == t[j - 1];
      }
    }
  }

  /**
   * When `x` does not go first, the first row of sorted `s` comes before
   * every row of the insertion of `x` into the rest.
   */
  lemma HeadBeforeInserted(x: Row, s: seq<Row>, rest: seq<Row>, k: nat, reverse: bool)
    requires k < |x| && HasColumn(s, k) && SortedBy(s, k, reverse) && |s| > 0
    requires Before(s[0][k], x[k], reverse)
    requires rest == InsertByKey(x, s[1..], k, reverse)
    ensures forall j :: 0 <= j < |rest| ==> Before(s[0][k], rest[j][k], reverse)
  {
    forall j | 0 <= j < |rest| ensures Before(s[0][k], rest[j][k], reverse) {
      assert rest[j] in multiset(rest);
      if rest[j] != x {
        assert rest[j] in multiset(s[1..]);
        var m :| 0 <= m < |s[1..]| && s[1..][m] == rest[j];
        assert s[m + 1] == rest[j];
      }
    }
  }

  /** The data rows sorted by column `k`: a permutation of the input, in order. */
  function SortByKey(rows: seq<Row>, k: nat, reverse: bool): (r: seq<Row>)
    requires HasColumn(rows, k)
    ensures |r| == |rows| && HasColumn(r, k)
    ensures multiset(r) == multiset(rows)
    ensures SortedBy(r, k, reverse)
  {
    if |rows| == 0 then []
    else
      assert rows == [rows[0]] + rows[1..];
      var rest := SortByKey(rows[1..], k, reverse);
      InsertSorted(rows[0], rest, k, reverse);
      InsertByKey(rows[0], rest, k, reverse)
  }

  /** The sort column's cells, row by row. */
  function Keys(rows: seq<Row>, k: nat): (keys: seq<Cell>)
    requires HasColumn(rows, k)
    ensures |keys| == |rows|
    ensures forall i :: 0 <= i < |rows| ==> keys[i] == rows[i][k]
  {
    seq(|rows|, i requires 0 <= i < |rows| => rows[i][k])
  }

  function Reverse(s: seq<Cell>): (r: seq<Cell>)
    ensures |r| == |s|
    ensures forall i :: 0 <= i < |s| ==> r[i] == s[|s| - 1 - i]
  {
    if |s| == 0 then []
    else
      var rest := Reverse(s[1..]);
      var r := rest + [s[0]];
      assert forall i :: 0 <= i < |s| ==> r[i] == s[|s| - 1 - i] by {
        forall i | 0 <= i < |s| ensures r[i] == s[|s| - 1 - i] {
          if i < |rest| {
            assert r[i] == rest[i] == s[1..][|s| - 2 - i];
          }
        }
      }
      r
  }

  /** Reversing keeps every key, as often as it occurs. */
  lemma {:induction false} ReversePermutes(s: seq<Cell>)
    ensures multiset(Reverse(s)) == multiset(s)
  {
    if |s| > 0 {
      ReversePermutes(s[1..]);
      ReverseFirstLast(s);
      MultisetFirst(s);
    }
  }

  /** Reversing moves the first key to the end. */
  lemma ReverseFirstLast(s: seq<Cell>)
    requires |s| > 0
    ensures multiset(Reverse(s)) == multiset(Reverse(s[1..])) + multiset{s[0]}
  {
    assert Reverse(s) == Reverse(s[1..]) + [s[0]];
  }

  lemma MultisetFirst(s: seq<Cell>)
    requires |s| > 0
    ensures multiset(s) == multiset{s[0]} + multiset(s[1..])
  {
    assert s == [s[0]] + s[1..];
  }

  predicate Ascending(s: seq<Cell>)
  {
    forall i, j :: 0 <= i < j < |s| ==> CellLe(s[i], s[j])
  }

  /** Matching the first row of one permutation with a row of the other leaves permutations. */
  lemma PermutationTail(a: seq<Row>, b: seq<Row>, m: nat)
    requires |a| > 0 && m < |b| && b[m] == a[0] && multiset(a) == multiset(b)
    ensures multiset(a[1..]) == multiset(RemoveAt(b, m))
  {
    assert b == b[..m] + [b[m]] + b[m + 1..];
    assert a == [a[0]] + a[1..];
    assert multiset(b) == multiset(b[..m]) + multiset{b[m]} + multiset(b[m + 1..]);
    assert multiset(a) == multiset{a[0]} + multiset(a[1..]);
    var r := RemoveAt(b, m);
    assert r == b[..m] + b[m + 1..];
    assert multiset(r) == multiset(b[..m]) + multiset(b[m + 1..]);
    forall y ensures multiset(a[1..])[y] == multiset(r)[y] {
      assert multiset(a)[y] == multiset{a[0]}[y] + multiset(a[1..])[y];
      assert multiset(b)[y] == multiset(b[..m])[y] + multiset{b[m]}[y] + multiset(b[m + 1..])[y];
      assert multiset(r)[y] == multiset(b[..m])[y] + multiset(b[m + 1..])[y];
    }
  }

  /** A sequence is the multiset sum of the parts before, at and after a position. */
  lemma MultisetAround(s: seq<Cell>, m: nat)
    requires m < |s|
    ensures multiset(s) == multiset(s[..m]) + multiset{s[m]} + multiset(s[m + 1..])
  {
    assert s == s[..m] + [s[m]] + s[m + 1..];
  }

  /** Taking one row out of a table takes its key out of the keys. */
  lemma KeysRemoveOne(b: seq<Row>, m: nat, k: nat)
    requires m < |b| && HasColumn(b, k)
    ensures HasColumn(RemoveAt(b, m), k)
    ensures multiset(Keys(b, k)) == multiset{b[m][k]} + multiset(Keys(RemoveAt(b, m), k))
  {
    var r := RemoveAt(b, m);
    var kb := Keys(b, k);
    var kr := Keys(r, k);
    assert kr == kb[..m] + kb[m + 1..] by {
      forall j | 0 <= j < |kr| ensures kr[j] == (kb[..m] + kb[m + 1..])[j] {
        if j < m {
          assert kr[j] == kb[j];
        } else {
          assert kr[j] == kb[j + 1];
        }
      }
    }
    MultisetAround(kb, m);
  }

  /** Rows that are permutations of each other have keys that are too. */
  lemma {:induction false} KeysPermutation(a: seq<Row>, b: seq<Row>, k: nat)
    requires HasColumn(a, k) && HasColumn(b, k) && multiset(a) == multiset(b)
    ensures multiset(Keys(a, k)) == multiset(Keys(b, k))
  {
    if |a| == 0 {
      assert |multiset(b)| == 0;
    } else {
      var x := a[0];
      assert x in multiset(b);
      var m :| 0 <= m < |b| && b[m] == x;
      var rest := RemoveAt(b, m);
      PermutationTail(a, b, m);
      KeysPermutation(a[1..], rest, k);
      KeysRemoveOne(b, m, k);
      var ka, ka' := Keys(a, k), Keys(a[1..], k);
      assert ka == [x[k]] + ka';
      assert multiset(ka) == multiset{x[k]} + multiset(ka');
    }
  }

  /** Under a total order there is only one ascending arrangement of given keys. */
  lemma {:induction false} AscendingUnique(xs: seq<Cell>, ys: seq<Cell>)
    requires Ascending(xs) && Ascending(ys) && multiset(xs) == multiset(ys)
    ensures xs == ys
  {
    if |xs| == 0 {
      assert |multiset(ys)| == 0;
    } else {
      assert |ys| == |multiset(ys)| == |xs|;
      AscendingFirstLeast(xs, ys);
      AscendingFirstLeast(ys, xs);
      CellLeAntisymmetric(xs[0], ys[0]);
      MultisetFirst(xs);
      MultisetFirst(ys);
      MultisetCancel(xs[0], multiset(xs[1..]), multiset(ys[1..]));
      AscendingTail(xs);
      AscendingTail(ys);
      AscendingUnique(xs[1..], ys[1..]);
      SameFirstAndRest(xs, ys);
    }
  }

  lemma MultisetCancel(a: Cell, p: multiset<Cell>, q: multiset<Cell>)
    requires multiset{a} + p == multiset{a} + q
    ensures p == q
  {
    assert p == (multiset{a} + p) - multiset{a};
  }

  lemma SameFirstAndRest(xs: seq<Cell>, ys: seq<Cell>)
    requires |xs| == |ys| > 0 && xs[0] == ys[0] && xs[1..] == ys[1..]
    ensures xs == ys
  {
    assert xs == [xs[0]] + xs[1..];
    assert ys == [ys[0]] + ys[1..];
  }

  lemma AscendingTail(xs: seq<Cell>)
    requires Ascending(xs) && |xs| > 0
    ensures Ascending(xs[1..])
  {
    forall i, j | 0 <= i < j < |xs| - 1 ensures CellLe(xs[1..][i], xs[1..][j]) {
      assert xs[1..][i] == xs[i + 1] && xs[1..][j] == xs[j + 1];
    }
  }

  /** The first of ascending keys is at most every key of a permutation of them. */
  lemma AscendingFirstLeast(xs: seq<Cell>, ys: seq<Cell>)
    requires Ascending(xs) && |xs| > 0 && |ys| > 0 && multiset(xs) == multiset(ys)
    ensures CellLe(xs[0], ys[0])
  {
    assert ys[0] in multiset(xs);
    var m :| 0 <= m < |xs| && xs[m] == ys[0];
    if m == 0 {
      CellLeReflexive(xs[0]);
    }
  }

  /**
   * Sorting the same rows once ascending and once descending (two clicks on
   * one heading) gives sort columns that are each other's reverse; only rows
   * with equal keys may be arranged differently.
   */
  lemma OppositeSortsReverseKeys(asc: seq<Row>, desc: seq<Row>, k: nat)
    requires HasColumn(asc, k) && HasColumn(desc, k) && multiset(asc) == multiset(desc)
    requires SortedBy(asc, k, false) && SortedBy(desc, k, true)
    ensures Keys(desc, k) == Reverse(Keys(asc, k))
  {
    var up := Keys(asc, k);
    var down := Reverse(Keys(desc, k));
    KeysPermutation(asc, desc, k);
    AscendingKeys(asc, k);
    DescendingKeysReversed(desc, k);
    ReversePermutes(Keys(desc, k));
    AscendingUnique(up, down);
    ReverseReverse(Keys(desc, k));
  }

  /** Rows sorted ascending have ascending keys. */
  lemma AscendingKeys(rows: seq<Row>, k: nat)
    requires HasColumn(rows, k) && SortedBy(rows, k, false)
    ensures Ascending(Keys(rows, k))
  {
  }

  /** Rows sorted descending have keys that ascend when read backwards. */
  lemma DescendingKeysReversed(rows: seq<Row>, k: nat)
    requires HasColumn(rows, k) && SortedBy(rows, k, true)
    ensures Ascending(Reverse(Keys(rows, k)))
  {
    var down := Reverse(Keys(rows, k));
    forall i, j | 0 <= i < j < |down| ensures CellLe(down[i], down[j]) {
      assert Before(rows[|rows| - 1 - j][k], rows[|rows| - 1 - i][k], true);
    }
  }

  lemma ReverseReverse(s: seq<Cell>)
    ensures Reverse(Reverse(s)) == s
  {
    var r := Reverse(Reverse(s));
    forall i | 0 <= i < |s| ensures r[i] == s[i] {
      assert r[i] == Reverse(s)[|s| - 1 - i];
    }
  }

  /** The table-level form: both directions of one sortable column. */
  lemma SortBothWays(data: seq<Row>, column: Option<Cell>)
    requires Sortable(data, column)
    ensures
      var k := ColumnIndex(data[0], column.value).value;
      var asc := SortTable(data, column, false).value[1..];
      var desc := SortTable(data, column, true).value[1..];
      HasColumn(asc, k) && HasColumn(desc, k) && Keys(desc, k) == Reverse(Keys(asc, k))
  {
    var k := ColumnIndex(data[0], column.value).value;
    var asc := SortTable(data, column, false).value[1..];
    var desc := SortTable(data, column, true).value[1..];
    OppositeSortsReverseKeys(asc, desc, k);
  }

  /** The position of the first cell of `h` equal to `name`. */
  function FirstIndex(h: Row, name: Cell): (k: nat)
    requires name in h
    ensures k < |h| && h[k] == name && name !in h[..k]
  {
    if h[0] == name then 0
    else
      assert h == [h[0]] + h[1..];
      1 + FirstIndex(h[1..], name)
  }

  /** Column `k` is the only column named `name`. */
  predicate UniqueAt(h: Row, name: Cell, k: nat)
  {
    k < |h| && h[k] == name && forall j :: 0 <= j < |h| && h[j] == name ==> j == k
  }

  /**
   * pandas' lookup of a column by name: the column when exactly one has that
   * name; KeyError (no column) or ValueError (several) otherwise.
   */
  function ColumnIndex(h: Row, name: Cell): (r: Option<nat>)
    ensures r.Some? ==> UniqueAt(h, name, r.value)
    ensures r.None? ==> forall k :: !UniqueAt(h, name, k)
  {
    if name !in h then None
    else
      var k := FirstIndex(h, name);
      if name in h[k + 1..] then
        var j :| k + 1 <= j < |h| && h[j] == name;
        assert h[k] == name && j != k;
        None
      else
        assert forall j :: 0 <= j < k ==> h[..k][j] == h[j];
        assert forall j :: k < j < |h| ==> h[k + 1..][j - k - 1] == h[j];
        Some(k)
  }

  /** `sort_data` succeeds: there is a header, the rows fit it, the column is found and its keys compare. */
  predicate Sortable(data: seq<Row>, column: Option<Cell>)
  {
    && |data| > 0
    && Aligned(data[0], data[1..])
    && column.Some?
    && ColumnIndex(data[0], column.value).Some?
    && Homogeneous(data[1..], ColumnIndex(data[0], column.value).value)
  }

  /**
   * `sort_data`: the header followed by the data rows ordered by the sort
   * column. None where pandas raises: no header row, rows that do not fit the
   * header, a column missing or named twice, text and numbers mixed in it.
   */
  function SortTable(data: seq<Row>, column: Option<Cell>, reverse: bool): (r: Option<seq<Row>>)
    ensures r.Some? <==> Sortable(data, column)
    ensures r.Some? ==>
      var k := ColumnIndex(data[0], column.value).value;
      && |r.value| == |data| && r.value[0] == data[0]
      && multiset(r.value[1..]) == multiset(data[1..])
      && Aligned(data[0], r.value[1..])
      && SortedBy(r.value[1..], k, reverse)
  {
    if !Sortable(data, column) then None
    else
      var k := ColumnIndex(data[0], column.value).value;
      var rows := SortByKey(data[1..], k, reverse);
      assert Aligned(data[0], rows) by {
        forall i | 0 <= i < |rows| ensures |rows[i]| == |data[0]| {
          assert rows[i] in multiset(data[1..]);
        }
      }
      assert ([data[0]] + rows)[1..] == rows;
      Some([data[0]] + rows)
  }
}
