/** The in-memory table both analysis classes work on: an ordered list of
    named columns, a dtype tag per column, and rows mapping every column name
    to a cell that may be missing (NaN / None). */
module Tables {
  import opened Wrappers

  /** A non-missing scalar: numbers (ints and floats alike) or text. */
  datatype Value = Num(x: real) | Str(s: string)

  /** A cell; None is a missing value. */
  type Cell = Option<Value>

  /** A column's dtype as the code inspects it: `object`, or anything else (numeric). */
  datatype Kind = Object | Numeric

  type Row = map<string, Cell>

  datatype Table = Table(columns: seq<string>, kinds: map<string, Kind>, rows: seq<Row>) {

    /** Column names are distinct, every column has a dtype and a cell in
        every row, and a numeric column holds only numbers. */
    ghost predicate Valid() {
      && (forall i, j :: 0 <= i < j < |columns| ==> columns[i] != columns[j])
      && (forall c :: c in kinds <==> c in columns)
      && (forall i :: 0 <= i < |rows| ==> rows[i].Keys == kinds.Keys)
      && (forall i, c :: 0 <= i < |rows| && c in kinds && kinds[c] == Numeric && c in rows[i] && rows[i][c].Some? ==> rows[i][c].value.Num?)
    }
  }

  /** The cell of `row` in column `c`; a column the row lacks reads as missing. */
  function CellOf(row: Row, c: string): Cell {
    if c in row then row[c] else None
  }

  /** Column `c` as a sequence of cells, one per row. */
  function Column(rows: seq<Row>, c: string): (cells: seq<Cell>)
    ensures |cells| == |rows|
    ensures forall i :: 0 <= i < |rows| ==> cells[i] == CellOf(rows[i], c)
  {
    seq(|rows|, i requires 0 <= i < |rows| => CellOf(rows[i], c))
  }

  /** The number of missing cells of column `c` (`isnull().sum()`). */
  function MissingCount(rows: seq<Row>, c: string): (n: nat)
    ensures n == multiset(Column(rows, c))[None]
    ensures n <= |rows|
    ensures n == 0 <==> forall i :: 0 <= i < |rows| ==> CellOf(rows[i], c).Some?
  {
    CountMissingFacts(rows, c);
    CountMissing(rows, c)
  }

  /** The recursion behind MissingCount, row by row. */
  function CountMissing(rows: seq<Row>, c: string): nat {
    if rows == [] then 0
    else (if CellOf(rows[0], c).None? then 1 else 0) + CountMissing(rows[1..], c)
  }

  lemma {:induction false} CountMissingFacts(rows: seq<Row>, c: string)
    ensures CountMissing(rows, c) == multiset(Column(rows, c))[None]
    ensures CountMissing(rows, c) <= |rows|
    ensures CountMissing(rows, c) == 0 <==> forall i :: 0 <= i < |rows| ==> CellOf(rows[i], c).Some?
  {
    if rows != [] {
      CountMissingFacts(rows[1..], c);
      assert forall i :: 1 <= i < |rows| ==> rows[i] == rows[1..][i - 1];
      assert Column(rows, c) == [CellOf(rows[0], c)] + Column(rows[1..], c);
    }
  }

  /** The non-missing values of column `c`, in row order (`dropna()`): each
      value as often as the column holds it. */
  function PresentValues(rows: seq<Row>, c: string): (vs: seq<Value>)
    ensures forall v :: multiset(vs)[v] == multiset(Column(rows, c))[Some(v)]
    ensures |vs| + MissingCount(rows, c) == |rows|
    ensures forall v :: v in vs <==> exists i :: 0 <= i < |rows| && CellOf(rows[i], c) == Some(v)
  {
    NonMissingFacts(rows, c);
    NonMissing(rows, c)
  }

  /** The recursion behind PresentValues: the present cells' values, row by row. */
  function NonMissing(rows: seq<Row>, c: string): seq<Value> {
    if rows == [] then []
    else (if CellOf(rows[0], c).Some? then [CellOf(rows[0], c).value] else []) + NonMissing(rows[1..], c)
  }

  lemma NonMissingFacts(rows: seq<Row>, c: string)
    ensures forall v :: multiset(NonMissing(rows, c))[v] == multiset(Column(rows, c))[Some(v)]
    ensures |NonMissing(rows, c)| + MissingCount(rows, c) == |rows|
    ensures forall v :: v in NonMissing(rows, c) <==> exists i :: 0 <= i < |rows| && CellOf(rows[i], c) == Some(v)
  {
    var vs, col := NonMissing(rows, c), Column(rows, c);
    NonMissingCounts(rows, c);
    NonMissingLength(rows, c);
    forall v ensures v in vs <==> exists i :: 0 <= i < |rows| && CellOf(rows[i], c) == Some(v) {
      assert v in vs <==> multiset(vs)[v] > 0;
      assert Some(v) in col <==> multiset(col)[Some(v)] > 0;
      if Some(v) in col {
        var i :| 0 <= i < |col| && col[i] == Some(v);
        assert CellOf(rows[i], c) == Some(v);
      }
    }
  }

  lemma {:induction false} NonMissingCounts(rows: seq<Row>, c: string)
    ensures forall v :: multiset(NonMissing(rows, c))[v] == multiset(Column(rows, c))[Some(v)]
  {
    if rows != [] {
      NonMissingCounts(rows[1..], c);
      assert Column(rows, c) == [CellOf(rows[0], c)] + Column(rows[1..], c);
    }
  }

  lemma {:induction false} NonMissingLength(rows: seq<Row>, c: string)
    ensures |NonMissing(rows, c)| + CountMissing(rows, c) == |rows|
  {
    if rows != [] {
      NonMissingLength(rows[1..], c);
    }
  }

  /** A column has no present value exactly when all its cells are missing. */
  lemma NoPresentValueIffAllMissing(rows: seq<Row>, c: string)
    ensures |PresentValues(rows, c)| == 0 <==> forall i :: 0 <= i < |rows| ==> CellOf(rows[i], c).None?
  {
    var present := PresentValues(rows, c);
    assert forall i :: 0 <= i < |rows| && CellOf(rows[i], c).Some? ==> CellOf(rows[i], c).value in present;
    if |present| > 0 {
      assert present[0] in present;
    }
  }

  /** `dropna()` keeps row order: the values of a concatenation are the
      values of its parts, one after the other. */
  lemma PresentValuesAppend(a: seq<Row>, b: seq<Row>, c: string)
    ensures PresentValues(a + b, c) == PresentValues(a, c) + PresentValues(b, c)
  {
    NonMissingAppend(a, b, c);
  }

  lemma {:induction false} NonMissingAppend(a: seq<Row>, b: seq<Row>, c: string)
    ensures NonMissing(a + b, c) == NonMissing(a, c) + NonMissing(b, c)
  {
    if a == [] {
      assert a + b == b;
    } else {
      assert (a + b)[0] == a[0];
      assert (a + b)[1..] == a[1..] + b;
      NonMissingAppend(a[1..], b, c);
    }
  }

  /** A row filter: `NotIn` drops rows whose cell is one of the excluded
      values (`~isin`), `EqualTo` keeps rows whose cell equals the target
      (`==`). A missing cell is never in an exclusion list and never equal to
      anything, itself included. */
  datatype RowTest = NotIn(feature: string, excluded: set<Value>) | EqualTo(feature: string, target: Cell)

  predicate Passes(test: RowTest, row: Row) {
    var cell := CellOf(row, test.feature);
    match test
    case NotIn(_, excluded) => !(cell.Some? && cell.value in excluded)
    case EqualTo(_, target) => cell.Some? && cell == target
  }

  /** The rows that pass `test`, in their original order (boolean indexing). */
  function Keep(rows: seq<Row>, test: RowTest): (kept: seq<Row>)
    ensures |kept| <= |rows|
    ensures forall row :: row in kept <==> row in rows && Passes(test, row)
  {
    if rows == [] then []
    else
      assert rows == [rows[0]] + rows[1..];
      (if Passes(test, rows[0]) then [rows[0]] else []) + Keep(rows[1..], test)
  }

  /** Filtering distributes over concatenation, so it keeps the relative
      order of the rows it keeps. */
  lemma {:induction false} KeepAppend(a: seq<Row>, b: seq<Row>, test: RowTest)
    ensures Keep(a + b, test) == Keep(a, test) + Keep(b, test)
  {
    if a == [] {
      assert a + b == b;
    } else {
      assert (a + b)[0] == a[0];
      assert (a + b)[1..] == a[1..] + b;
      KeepAppend(a[1..], b, test);
    }
  }

  /** When every row passes, filtering changes nothing. */
  lemma {:induction false} KeepAll(rows: seq<Row>, test: RowTest)
    requires forall i :: 0 <= i < |rows| ==> Passes(test, rows[i])
    ensures Keep(rows, test) == rows
  {
    if rows != [] {
      KeepAll(rows[1..], test);
    }
  }

  /** Filtering twice by the same test is filtering once. */
  lemma KeepIdempotent(rows: seq<Row>, test: RowTest)
    ensures Keep(Keep(rows, test), test) == Keep(rows, test)
  {
    var kept := Keep(rows, test);
    forall i | 0 <= i < |kept| ensures Passes(test, kept[i]) {
      assert kept[i] in kept;
    }
    KeepAll(kept, test);
  }

  /** Selecting on a missing target keeps no row: NaN equals nothing. */
  lemma KeepMissingTarget(rows: seq<Row>, feature: string)
    ensures Keep(rows, EqualTo(feature, None)) == []
  {
  }
}
