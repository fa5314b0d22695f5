/**
 * Tables as the cleaner sees them after loading: a header of column names
 * and rows of cells, every row as long as the header. Column names are
 * distinct, as the CSV loader renames repeated names. The operations are the
 * three the cleaner uses: keep the columns before a position counted from the
 * end (`iloc[:, :-k]`), remove a named column (`drop(columns=[name])`), and
 * keep the rows whose cell in a named column is not in an exclusion list
 * (`t[~t[name].isin(excluded)]`).
 */
module Tables {
  import opened Wrappers

  type Row = seq<string>

  datatype Table = Table(header: seq<string>, rows: seq<Row>)

  /** Looking up a column that the table does not have. */
  datatype CleanError = MissingColumn(name: string)

  predicate Distinct(names: seq<string>)
  {
    forall i, j :: 0 <= i < j < |names| ==> names[i] != names[j]
  }

  /** A loaded table: distinct column names, and rows as wide as the header. */
  predicate WellFormed(t: Table)
  {
    Distinct(t.header) && forall i :: 0 <= i < |t.rows| ==> |t.rows[i]| == |t.header|
  }

  /** The position of the first column called `name`. */
  function IndexOf(names: seq<string>, name: string): (r: Option<nat>)
    ensures r.None? <==> name !in names
    ensures r.Some? ==> r.value < |names| && names[r.value] == name && name !in names[..r.value]
  {
    if names == [] then None
    else if names[0] == name then Some(0)
    else
      match IndexOf(names[1..], name)
      case None => None
      case Some(j) =>
        assert names[..j + 1] == [names[0]] + names[1..][..j];
        Some(j + 1)
  }

  /** In a header without repeats, the column called `names[p]` is at `p`. */
  lemma IndexOfDistinct(names: seq<string>, p: nat)
    requires Distinct(names) && p < |names|
    ensures IndexOf(names, names[p]) == Some(p)
  {
    assert names[p] in names;
  }

  /** The cell of row `i` in the column called `name`. */
  function Cell(t: Table, i: nat, name: string): string
    requires WellFormed(t) && i < |t.rows| && name in t.header
  {
    t.rows[i][IndexOf(t.header, name).value]
  }

  /**
   * The stop of the Python slice `[:-k]` over `n` items: `-0` is `0`, so
   * `k == 0` keeps nothing, and a `k` beyond `n` keeps nothing either.
   */
  function SliceStop(n: nat, k: nat): (m: nat)
    ensures m <= n
    ensures 0 < k <= n ==> m + k == n
    ensures (k == 0 || k > n) ==> m == 0
  {
    if k == 0 || k > n then 0 else n - k
  }

  /**
   * Python's normalisation of a slice stop over `n` items: a negative stop
   * counts from the end and is floored at 0; any other stop is capped at `n`.
   */
  function PyStop(n: nat, stop: int): nat
  {
    if stop < 0 then (if n + stop < 0 then 0 else n + stop)
    else if stop > n then n
    else stop
  }

  /** `SliceStop(n, k)` is the stop Python uses for `[:-k]`. */
  lemma SliceStopIsPyStop(n: nat, k: nat)
    ensures SliceStop(n, k) == PyStop(n, -(k as int))
  {
  }

  /** `t.iloc[:, :-k]`: every row keeps its cells before the last `k` columns. */
  function DropLast(t: Table, k: nat): (r: Table)
    requires WellFormed(t)
    ensures WellFormed(r)
    ensures |r.header| == SliceStop(|t.header|, k)
    ensures r.header == t.header[..|r.header|]
    ensures |r.rows| == |t.rows|
    ensures forall i :: 0 <= i < |r.rows| ==> r.rows[i] == t.rows[i][..|r.header|]
  {
    var m := SliceStop(|t.header|, k);
    Table(t.header[..m], seq(|t.rows|, i requires 0 <= i < |t.rows| => t.rows[i][..m]))
  }

  /** The columns `DropLast` keeps hold the cells they held before. */
  lemma DropLastKeepsCells(t: Table, k: nat, i: nat, c: string)
    requires WellFormed(t) && i < |t.rows| && c in DropLast(t, k).header
    ensures c in t.header
    ensures Cell(DropLast(t, k), i, c) == Cell(t, i, c)
  {
    var d := DropLast(t, k);
    var p := IndexOf(d.header, c).value;
    assert d.header[p] == t.header[p];
    IndexOfDistinct(t.header, p);
    assert d.rows[i][p] == t.rows[i][p];
  }

  /** `s` without its element at position `j`. */
  function RemoveAt<T>(s: seq<T>, j: nat): (r: seq<T>)
    requires j < |s|
    ensures |r| + 1 == |s|
    ensures forall p :: 0 <= p < |r| ==> r[p] == if p < j then s[p] else s[p + 1]
  {
    s[..j] + s[j + 1..]
  }

  /**
   * Removing position `j` from distinct names keeps them distinct and leaves
   * exactly the other names.
   */
  lemma RemoveDistinct(names: seq<string>, j: nat)
    requires Distinct(names) && j < |names|
    ensures Distinct(RemoveAt(names, j))
    ensures forall c :: c in RemoveAt(names, j) <==> c in names && c != names[j]
  {
    var r := RemoveAt(names, j);
    forall p, q | 0 <= p < q < |r| ensures r[p] != r[q] {
      var p' := if p < j then p else p + 1;
      var q' := if q < j then q else q + 1;
      assert r[p] == names[p'] && r[q] == names[q'];
    }
    forall p | 0 <= p < |r| ensures r[p] != names[j] {
      var p' := if p < j then p else p + 1;
      assert names[p'] != names[j];
    }
    forall c | c in names && c != names[j] ensures c in r {
      var p :| 0 <= p < |names| && names[p] == c;
      assert r[if p < j then p else p - 1] == c;
    }
  }

  /** `t.drop(columns=[name])`: fails when the column is absent. */
  function DropColumn(t: Table, name: string): (r: Result<Table, CleanError>)
    requires WellFormed(t)
    ensures r.Success? <==> name in t.header
    ensures r.Failure? ==> r.error == MissingColumn(name)
    ensures r.Success? ==>
      && WellFormed(r.value)
      && |r.value.header| + 1 == |t.header|
      && |r.value.rows| == |t.rows|
      && name !in r.value.header
      && (forall c :: c in r.value.header <==> c in t.header && c != name)
      && r.value.header == RemoveAt(t.header, IndexOf(t.header, name).value)
      && (forall i :: 0 <= i < |t.rows| ==> r.value.rows[i] == RemoveAt(t.rows[i], IndexOf(t.header, name).value))
  {
    match IndexOf(t.header, name)
    case None => Failure(MissingColumn(name))
    case Some(j) =>
      var header := RemoveAt(t.header, j);
      RemoveDistinct(t.header, j);
      Success(Table(header, seq(|t.rows|, i requires 0 <= i < |t.rows| => RemoveAt(t.rows[i], j))))
  }

  /**
   * Removing a column leaves the header order and every other column's cells
   * as they were: the columns before the removed one keep their position and
   * the ones after it move one place left.
   */
  lemma DropColumnKeepsCells(t: Table, name: string, i: nat, c: string)
    requires WellFormed(t) && name in t.header
    requires i < |t.rows| && c in t.header && c != name
    ensures DropColumn(t, name).Success?
    ensures c in DropColumn(t, name).value.header
    ensures Cell(DropColumn(t, name).value, i, c) == Cell(t, i, c)
  {
    var v := DropColumn(t, name).value;
    var j := IndexOf(t.header, name).value;
    var p := IndexOf(v.header, c).value;
    var p' := if p < j then p else p + 1;
    assert v.header[p] == t.header[p'];
    IndexOfDistinct(t.header, p');
    assert v.rows[i][p] == t.rows[i][p'];
  }

  /** Whether a row is kept: its cell in column `col` is not excluded. */
  predicate Kept(row: Row, col: nat, excluded: seq<string>)
    requires col < |row|
  {
    row[col] !in excluded
  }

  /** Every row has a cell in column `col`. */
  predicate HasColumn(rows: seq<Row>, col: nat)
  {
    forall i :: 0 <= i < |rows| ==> col < |rows[i]|
  }

  /** The rows whose cell in column `col` is not excluded, in their original order. */
  function KeepRows(rows: seq<Row>, col: nat, excluded: seq<string>): (r: seq<Row>)
    requires HasColumn(rows, col)
    ensures |r| <= |rows|
    ensures forall k :: 0 <= k < |r| ==> r[k] in rows && col < |r[k]| && r[k][col] !in excluded
    decreases |rows|
  {
    if rows == [] then []
    else
      var init := KeepRows(rows[..|rows| - 1], col, excluded);
      var last := rows[|rows| - 1];
      if Kept(last, col, excluded) then init + [last] else init
  }

  /** The positions of the rows that `KeepRows` keeps. */
  function KeptIndices(rows: seq<Row>, col: nat, excluded: seq<string>): seq<nat>
    requires HasColumn(rows, col)
    decreases |rows|
  {
    if rows == [] then []
    else
      var init := KeptIndices(rows[..|rows| - 1], col, excluded);
      if Kept(rows[|rows| - 1], col, excluded) then init + [|rows| - 1] else init
  }

  /** Strictly increasing positions below `n`. */
  predicate Ascending(idx: seq<nat>, n: nat)
  {
    (forall k :: 0 <= k < |idx| ==> idx[k] < n) &&
    (forall k, l :: 0 <= k < l < |idx| ==> idx[k] < idx[l])
  }

  /** `KeepRows` picks the rows at the positions `KeptIndices` lists. */
  lemma {:induction false} KeepRowsAt(rows: seq<Row>, col: nat, excluded: seq<string>)
    requires HasColumn(rows, col)
    ensures |KeepRows(rows, col, excluded)| == |KeptIndices(rows, col, excluded)|
    ensures forall k :: 0 <= k < |KeptIndices(rows, col, excluded)| ==>
      KeptIndices(rows, col, excluded)[k] < |rows| &&
      KeepRows(rows, col, excluded)[k] == rows[KeptIndices(rows, col, excluded)[k]]
    decreases |rows|
  {
    if rows != [] {
      var front := rows[..|rows| - 1];
      KeepRowsAt(front, col, excluded);
    }
  }

  /**
   * The positions `KeptIndices` lists are strictly increasing, and a
   * position is listed exactly when its row is kept.
   */
  lemma {:induction false} KeptIndicesExact(rows: seq<Row>, col: nat, excluded: seq<string>)
    requires HasColumn(rows, col)
    ensures Ascending(KeptIndices(rows, col, excluded), |rows|)
    ensures forall i :: 0 <= i < |rows| ==>
      (i in KeptIndices(rows, col, excluded) <==> Kept(rows[i], col, excluded))
    decreases |rows|
  {
    if rows != [] {
      var n := |rows|;
      var front := rows[..n - 1];
      KeptIndicesExact(front, col, excluded);
      var init := KeptIndices(front, col, excluded);
      assert forall i :: 0 <= i < n - 1 ==> rows[i] == front[i];
      assert n - 1 !in init;
    }
  }

  /**
   * `KeepRows` keeps exactly the rows whose cell is not excluded, each once,
   * in their original relative order: its result is the input at a strictly
   * increasing list of positions, and a position is on that list exactly
   * when its row is kept.
   */
  lemma {:induction false} KeepRowsSelects(rows: seq<Row>, col: nat, excluded: seq<string>)
    requires HasColumn(rows, col)
    ensures |KeepRows(rows, col, excluded)| == |KeptIndices(rows, col, excluded)|
    ensures Ascending(KeptIndices(rows, col, excluded), |rows|)
    ensures forall k :: 0 <= k < |KeptIndices(rows, col, excluded)| ==>
      KeepRows(rows, col, excluded)[k] == rows[KeptIndices(rows, col, excluded)[k]]
    ensures forall i :: 0 <= i < |rows| ==>
      (i in KeptIndices(rows, col, excluded) <==> Kept(rows[i], col, excluded))
  {
    KeepRowsAt(rows, col, excluded);
    KeptIndicesExact(rows, col, excluded);
  }

  /**
   * `t[~t[name].isin(excluded)]`: fails when the column is absent. The
   * header is unchanged; the rows are the input at a strictly increasing
   * list of positions, and a position is listed exactly when the row's cell
   * in the named column is not excluded.
   */
  function FilterRows(t: Table, name: string, excluded: seq<string>): (r: Result<Table, CleanError>)
    requires WellFormed(t)
    ensures r.Success? <==> name in t.header
    ensures r.Failure? ==> r.error == MissingColumn(name)
    ensures r.Success? ==>
      && WellFormed(r.value)
      && r.value.header == t.header
      && |r.value.rows| <= |t.rows|
      && (forall k :: 0 <= k < |r.value.rows| ==> r.value.rows[k] in t.rows && Cell(r.value, k, name) !in excluded)
      && var j := IndexOf(t.header, name).value;
         var idx := KeptIndices(t.rows, j, excluded);
         && Ascending(idx, |t.rows|)
         && |r.value.rows| == |idx|
         && (forall k :: 0 <= k < |idx| ==> r.value.rows[k] == t.rows[idx[k]])
         && (forall i :: 0 <= i < |t.rows| ==> (i in idx <==> t.rows[i][j] !in excluded))
  {
    match IndexOf(t.header, name)
    case None => Failure(MissingColumn(name))
    case Some(j) =>
      assert HasColumn(t.rows, j);
      KeepRowsSelects(t.rows, j, excluded);
      Success(Table(t.header, KeepRows(t.rows, j, excluded)))
  }
}
