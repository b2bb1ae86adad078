/** Missing-data bookkeeping on the insurance table: the per-column summary of
    missing cells, dropping columns, filling missing cells, and the driver
    that buckets columns by their missing percentage and treats each bucket. */
module Processing {
  import opened Wrappers
  import opened Tables
  import opened Sorting
  import opened Statistics

  /** One line of the summary: a column, its number of missing cells and their percentage. */
  datatype SummaryEntry = SummaryEntry(column: string, missingCount: nat, percentage: real)

  const UNKNOWN := "Unknown"

  /** `missing / rows * 100`. */
  function Percentage(count: nat, rowCount: nat): real
    requires rowCount > 0
  {
    (count as real) / (rowCount as real) * 100.0
  }

  /** The missing percentage of column `c`; zero for a table without rows. */
  function MissingPercentage(t: Table, c: string): real {
    if |t.rows| == 0 then 0.0 else Percentage(MissingCount(t.rows, c), |t.rows|)
  }

  /** One entry per column with at least one missing cell, in column order. */
  function MissingEntries(columns: seq<string>, rows: seq<Row>): (entries: seq<SummaryEntry>)
    ensures forall e :: e in entries ==>
              && e.column in columns
              && e.missingCount == MissingCount(rows, e.column) > 0
              && e.percentage == Percentage(e.missingCount, |rows|)
    ensures forall c :: c in columns && MissingCount(rows, c) > 0 ==> exists e :: e in entries && e.column == c
    ensures (forall i, j :: 0 <= i < j < |columns| ==> columns[i] != columns[j]) ==>
              forall i, j :: 0 <= i < j < |entries| ==> entries[i].column != entries[j].column
  {
    EntriesFacts(columns, rows);
    Entries(columns, rows)
  }

  /** The recursion behind MissingEntries, column by column. */
  function Entries(columns: seq<string>, rows: seq<Row>): seq<SummaryEntry> {
    if columns == [] then []
    else
      var c := columns[0];
      var n := MissingCount(rows, c);
      (if n > 0 then [SummaryEntry(c, n, Percentage(n, |rows|))] else []) + Entries(columns[1..], rows)
  }

  lemma {:induction false} EntriesFacts(columns: seq<string>, rows: seq<Row>)
    ensures forall e :: e in Entries(columns, rows) ==>
              && e.column in columns
              && e.missingCount == MissingCount(rows, e.column) > 0
              && e.percentage == Percentage(e.missingCount, |rows|)
    ensures forall c :: c in columns && MissingCount(rows, c) > 0 ==> exists e :: e in Entries(columns, rows) && e.column == c
    ensures (forall i, j :: 0 <= i < j < |columns| ==> columns[i] != columns[j]) ==>
              forall i, j :: 0 <= i < j < |Entries(columns, rows)| ==> Entries(columns, rows)[i].column != Entries(columns, rows)[j].column
  {
    EntriesMembers(columns, rows);
    if forall i, j :: 0 <= i < j < |columns| ==> columns[i] != columns[j] {
      EntriesDistinct(columns, rows);
    }
  }

  lemma {:induction false} EntriesMembers(columns: seq<string>, rows: seq<Row>)
    ensures forall e :: e in Entries(columns, rows) ==>
              && e.column in columns
              && e.missingCount == MissingCount(rows, e.column) > 0
              && e.percentage == Percentage(e.missingCount, |rows|)
    ensures forall c :: c in columns && MissingCount(rows, c) > 0 ==> exists e :: e in Entries(columns, rows) && e.column == c
  {
    if columns != [] {
      EntriesMembers(columns[1..], rows);
      assert forall d :: d in columns ==> d == columns[0] || d in columns[1..];
    }
  }

  lemma {:induction false} EntriesDistinct(columns: seq<string>, rows: seq<Row>)
    requires forall i, j :: 0 <= i < j < |columns| ==> columns[i] != columns[j]
    ensures forall i, j :: 0 <= i < j < |Entries(columns, rows)| ==> Entries(columns, rows)[i].column != Entries(columns, rows)[j].column
  {
    if columns != [] {
      var c, tail := columns[0], columns[1..];
      assert c !in tail;
      assert forall i, j :: 0 <= i < j < |tail| ==> tail[i] != tail[j] by {
        forall i, j | 0 <= i < j < |tail| ensures tail[i] != tail[j] {
          assert tail[i] == columns[i + 1] && tail[j] == columns[j + 1];
        }
      }
      EntriesDistinct(tail, rows);
      EntriesMembers(tail, rows);
      var entries, rest := Entries(columns, rows), Entries(tail, rows);
      if MissingCount(rows, c) > 0 {
        assert entries == [SummaryEntry(c, MissingCount(rows, c), Percentage(MissingCount(rows, c), |rows|))] + rest;
        forall i, j | 0 <= i < j < |entries| ensures entries[i].column != entries[j].column {
          assert entries[j] == rest[j - 1] && rest[j - 1] in rest;
          if i > 0 {
            assert entries[i] == rest[i - 1];
          }
        }
      }
    }
  }

  /** Reordering entries with distinct columns keeps the columns distinct:
      an entry is determined by its column. */
  lemma OneEntryPerColumn(summary: seq<SummaryEntry>, entries: seq<SummaryEntry>, rows: seq<Row>)
    requires multiset(summary) == multiset(entries)
    requires forall e :: e in summary ==> e.missingCount == MissingCount(rows, e.column) > 0 && e.percentage == Percentage(e.missingCount, |rows|)
    ensures (forall i, j :: 0 <= i < j < |entries| ==> entries[i].column != entries[j].column) ==>
              forall i, j :: 0 <= i < j < |summary| ==> summary[i].column != summary[j].column
  {
    if forall i, j :: 0 <= i < j < |entries| ==> entries[i].column != entries[j].column {
      DistinctPermutation(summary, entries);
      forall i, j | 0 <= i < j < |summary| ensures summary[i].column != summary[j].column {
        assert summary[i] in summary && summary[j] in summary;
      }
    }
  }

  /** Removes the names in `dropped` from a column list, keeping the order of the rest. */
  function Remaining(columns: seq<string>, dropped: set<string>): (r: seq<string>)
    ensures forall c :: c in r <==> c in columns && c !in dropped
    ensures (forall i, j :: 0 <= i < j < |columns| ==> columns[i] != columns[j]) ==>
              forall i, j :: 0 <= i < j < |r| ==> r[i] != r[j]
  {
    if columns == [] then []
    else
      var rest := Remaining(columns[1..], dropped);
      assert forall d :: d in columns ==> d == columns[0] || d in columns[1..];
      assert (forall i, j :: 0 <= i < j < |columns| ==> columns[i] != columns[j]) ==> columns[0] !in columns[1..];
      (if columns[0] in dropped then [] else [columns[0]]) + rest
  }

  /** Dropping keeps the surviving columns in their original order. */
  lemma {:induction false} RemainingAppend(a: seq<string>, b: seq<string>, dropped: set<string>)
    ensures Remaining(a + b, dropped) == Remaining(a, dropped) + Remaining(b, dropped)
  {
    if a == [] {
      assert a + b == b;
    } else {
      assert (a + b)[0] == a[0];
      assert (a + b)[1..] == a[1..] + b;
      RemainingAppend(a[1..], b, dropped);
    }
  }

  /** `drop(columns=cols, errors='ignore')`: the listed columns that exist are
      removed, names that do not exist are ignored, and every remaining cell
      of every row is as it was. */
  function DropColumns(t: Table, cols: seq<string>): (r: Table)
    requires t.Valid()
    ensures r.Valid()
    ensures r.columns == Remaining(t.columns, set c | c in cols)
    ensures forall c :: c in r.columns <==> c in t.columns && c !in cols
    ensures |r.rows| == |t.rows|
    ensures forall c :: c in r.kinds ==> c in t.kinds && r.kinds[c] == t.kinds[c]
    ensures forall i, c :: 0 <= i < |r.rows| && c in r.kinds ==> CellOf(r.rows[i], c) == CellOf(t.rows[i], c)
  {
    var dropped := set c | c in cols;
    Table(Remaining(t.columns, dropped), t.kinds - dropped,
          seq(|t.rows|, i requires 0 <= i < |t.rows| => t.rows[i] - dropped))
  }

  /** The non-missing values that are numbers. */
  function Numbers(vs: seq<Value>): (xs: seq<real>)
    ensures forall x :: multiset(xs)[x] == multiset(vs)[Num(x)]
    ensures |xs| <= |vs|
    ensures (forall i :: 0 <= i < |vs| ==> vs[i].Num?) ==> |xs| == |vs|
  {
    if vs == [] then []
    else
      assert vs == [vs[0]] + vs[1..];
      (if vs[0].Num? then [vs[0].x] else []) + Numbers(vs[1..])
  }

  /** In a numeric column of a well-formed table every present value is a
      number, so the column has no number exactly when all its cells are
      missing (`isnull().all()`). */
  lemma NumbersOfNumericColumn(t: Table, c: string)
    requires t.Valid() && c in t.kinds && t.kinds[c] == Numeric
    ensures |Numbers(PresentValues(t.rows, c))| == |PresentValues(t.rows, c)|
    ensures |Numbers(PresentValues(t.rows, c))| == 0 <==> forall i :: 0 <= i < |t.rows| ==> CellOf(t.rows[i], c).None?
  {
    NumericColumnHoldsNumbers(t, c);
    NoPresentValueIffAllMissing(t.rows, c);
  }

  lemma NumericColumnHoldsNumbers(t: Table, c: string)
    requires t.Valid() && c in t.kinds && t.kinds[c] == Numeric
    ensures forall k :: 0 <= k < |PresentValues(t.rows, c)| ==> PresentValues(t.rows, c)[k].Num?
  {
    var present := PresentValues(t.rows, c);
    forall k | 0 <= k < |present| ensures present[k].Num? {
      assert present[k] in present;
      var i :| 0 <= i < |t.rows| && CellOf(t.rows[i], c) == Some(present[k]);
      assert c in t.rows[i];
    }
  }

  /** `v` is one of `vs` and no value occurs more often. */
  ghost predicate IsMode(vs: seq<Value>, v: Value) {
    v in vs && forall w :: multiset(vs)[w] <= multiset(vs)[v]
  }

  /** The value `fillna` uses for column `c`: for an object column a most
      frequent non-missing value, or "Unknown" when there is none; for a
      numeric column the median of its numbers, or 0 when there are none. */
  function FillValue(t: Table, c: string): (v: Value)
    requires c in t.kinds
    ensures var present := PresentValues(t.rows, c);
            && (t.kinds[c] == Object && |present| == 0 ==> v == Str(UNKNOWN))
            && (t.kinds[c] == Object && |present| > 0 ==> IsMode(present, v))
            && (t.kinds[c] == Numeric ==> v.Num?)
            && (t.kinds[c] == Numeric && |Numbers(present)| == 0 ==> v == Num(0.0))
            && (t.kinds[c] == Numeric && |Numbers(present)| > 0 ==> IsMedian(Numbers(present), v.x))
            && (t.kinds[c] == Numeric ==>
                  forall s :: Ascending(s) && multiset(s) == multiset(Numbers(present)) && 0 < |s| == |Numbers(present)| ==>
                    v == Num(Middle(s)))
  {
    var present := PresentValues(t.rows, c);
    match t.kinds[c]
    case Object => if |present| == 0 then Str(UNKNOWN) else Mode(present)
    case Numeric =>
      var xs := Numbers(present);
      if |xs| == 0 then Num(0.0) else Num(Median(xs))
  }

  /** The fill value depends on nothing but the column's dtype and cells. */
  lemma FillValueOfSameColumn(t: Table, u: Table, c: string)
    requires c in t.kinds && c in u.kinds && t.kinds[c] == u.kinds[c]
    requires |t.rows| == |u.rows|
    requires forall i :: 0 <= i < |t.rows| ==> CellOf(t.rows[i], c) == CellOf(u.rows[i], c)
    ensures FillValue(t, c) == FillValue(u, c)
  {
    PresentValuesOfSameColumn(t.rows, u.rows, c);
  }

  lemma {:induction false} PresentValuesOfSameColumn(a: seq<Row>, b: seq<Row>, c: string)
    requires |a| == |b|
    requires forall i :: 0 <= i < |a| ==> CellOf(a[i], c) == CellOf(b[i], c)
    ensures PresentValues(a, c) == PresentValues(b, c)
  {
    if a != [] {
      PresentValuesOfSameColumn(a[1..], b[1..], c);
    }
  }

  /** A row with its missing cell in column `c` replaced by `v`. */
  function FillCell(row: Row, c: string, v: Value): Row {
    if c in row && row[c].None? then row[c := Some(v)] else row
  }

  /** `self.data[c] = self.data[c].fillna(v)`. */
  function FillColumn(t: Table, c: string, v: Value): (r: Table)
    ensures r.columns == t.columns && r.kinds == t.kinds && |r.rows| == |t.rows|
    ensures forall i :: 0 <= i < |t.rows| ==> r.rows[i] == FillCell(t.rows[i], c, v)
  {
    t.(rows := seq(|t.rows|, i requires 0 <= i < |t.rows| => FillCell(t.rows[i], c, v)))
  }

  /** The cell (i, c) after filling the listed columns of `before`. */
  function FilledCell(before: Table, cols: seq<string>, i: nat, c: string): Cell
    requires i < |before.rows| && c in before.kinds
  {
    var cell := CellOf(before.rows[i], c);
    if c in cols && cell.None? then Some(FillValue(before, c)) else cell
  }

  /** `after` is `before` with the missing cells of the listed columns filled:
      same columns, dtypes and rows, and every cell as FilledCell says. */
  ghost predicate Filled(before: Table, after: Table, cols: seq<string>) {
    && after.columns == before.columns
    && after.kinds == before.kinds
    && |after.rows| == |before.rows|
    && forall i, c :: 0 <= i < |after.rows| && c in after.kinds ==> CellOf(after.rows[i], c) == FilledCell(before, cols, i, c)
  }

  /** After filling, a listed column that exists has no missing cell, and a
      non-missing cell of any column is unchanged. */
  lemma FilledConsequences(before: Table, after: Table, cols: seq<string>)
    requires Filled(before, after, cols)
    ensures forall c :: c in cols && c in after.kinds ==> MissingCount(after.rows, c) == 0
    ensures forall i, c :: 0 <= i < |after.rows| && c in after.kinds && CellOf(before.rows[i], c).Some? ==>
              CellOf(after.rows[i], c) == CellOf(before.rows[i], c)
    ensures forall i, c :: 0 <= i < |after.rows| && c in after.kinds && c !in cols ==>
              CellOf(after.rows[i], c) == CellOf(before.rows[i], c)
  {
    forall c | c in cols && c in after.kinds ensures MissingCount(after.rows, c) == 0 {
      assert forall i :: 0 <= i < |after.rows| ==> CellOf(after.rows[i], c) == FilledCell(before, cols, i, c);
    }
  }

  /** The driver's buckets of a missing percentage. */
  datatype Severity = High | Moderate | Low

  /** `> 50` is high, `<= 50` and `> 20` moderate, `< 20` low. */
  function Bucket(percentage: real): (b: Option<Severity>)
    ensures b == Some(High) <==> percentage > 50.0
    ensures b == Some(Moderate) <==> 20.0 < percentage <= 50.0
    ensures b == Some(Low) <==> percentage < 20.0
  {
    if percentage > 50.0 then Some(High)
    else if percentage > 20.0 then Some(Moderate)
    else if percentage < 20.0 then Some(Low)
    else None
  }

  /** The buckets are disjoint, and exactly 20 percent falls in none of them. */
  lemma BucketGap(percentage: real)
    ensures Bucket(percentage) == None <==> percentage == 20.0
  {
  }

  /** The columns of the summary entries in bucket `severity`, in summary order. */
  function ColumnsIn(summary: seq<SummaryEntry>, severity: Severity): (cols: seq<string>)
    ensures forall c :: c in cols <==> exists e :: e in summary && e.column == c && Bucket(e.percentage) == Some(severity)
  {
    if summary == [] then []
    else
      var e := summary[0];
      var rest := ColumnsIn(summary[1..], severity);
      assert forall f :: f in summary ==> f == e || f in summary[1..];
      (if Bucket(e.percentage) == Some(severity) then [e.column] else []) + rest
  }

  class DataProcessing {
    var data: Table

    constructor (data: Table)
      ensures this.data == data
    {
      this.data := data;
    }

    /** `missing_data_summary`: exactly the columns with a missing cell, each
        with its count and its percentage of the rows, ordered by percentage,
        largest first. */
    function MissingDataSummary(): (summary: seq<SummaryEntry>)
      reads this
      ensures forall e :: e in summary ==>
                && e.column in data.columns
                && e.missingCount == MissingCount(data.rows, e.column) > 0
                && e.percentage == Percentage(e.missingCount, |data.rows|)
      ensures forall c :: c in data.columns && MissingCount(data.rows, c) > 0 ==> exists e :: e in summary && e.column == c
      ensures forall i, j :: 0 <= i < j < |summary| ==> summary[i].percentage >= summary[j].percentage
      ensures multiset(summary) == multiset(MissingEntries(data.columns, data.rows))
      ensures (forall i, j :: 0 <= i < j < |data.columns| ==> data.columns[i] != data.columns[j]) ==>
                forall i, j :: 0 <= i < j < |summary| ==> summary[i].column != summary[j].column
    {
      var entries := MissingEntries(data.columns, data.rows);
      var key := (e: SummaryEntry) => -e.percentage;
      var summary := SortBy(entries, key);
      SummaryOfEntries(data.columns, data.rows, entries, summary, key);
      summary
    }

    /** `handle_missing_data`: "high" drops the listed columns; any other
        type, "moderate" included, fills the missing cells of the listed
        columns that exist. Returns the new table, which is also kept. */
    method HandleMissingData(missingType: string, missingCols: seq<string>) returns (r: Table)
      requires data.Valid()
      modifies this
      ensures data.Valid() && r == data
      ensures missingType == "high" ==> data == DropColumns(old(data), missingCols)
      ensures missingType != "high" ==> Filled(old(data), data, missingCols)
    {
      if missingType == "high" {
        data := DropColumns(data, missingCols);
      } else if missingType == "moderate" {
        FillMissing(missingCols);
      } else {
        // the source repeats the "moderate" branch here verbatim
        FillMissing(missingCols);
      }
      r := data;
    }

    /** The loop shared by the two fill branches: one column at a time, each
        listed column that exists gets `fillna` with its fill value. */
    method FillMissing(missingCols: seq<string>)
      requires data.Valid()
      modifies this
      ensures data.Valid() && Filled(old(data), data, missingCols)
    {
      ghost var before := data;
      for k := 0 to |missingCols|
        invariant data.Valid()
        invariant Filled(before, data, missingCols[..k])
      {
        var col := missingCols[k];
        if col in data.columns {
          FillStep(before, data, missingCols, k);
          data := FillColumn(data, col, FillValue(data, col));
        } else {
          SkipStep(before, data, missingCols, k);
        }
      }
      assert missingCols[..|missingCols|] == missingCols;
    }
  }

  /** What sorting the per-column entries by descending percentage yields. */
  lemma SummaryOfEntries(columns: seq<string>, rows: seq<Row>, entries: seq<SummaryEntry>, summary: seq<SummaryEntry>,
                         key: SummaryEntry -> real)
    requires entries == MissingEntries(columns, rows)
    requires multiset(summary) == multiset(entries)
    requires SortedBy(summary, key) && forall e :: key(e) == -e.percentage
    ensures forall e :: e in summary ==>
              && e.column in columns
              && e.missingCount == MissingCount(rows, e.column) > 0
              && e.percentage == Percentage(e.missingCount, |rows|)
    ensures forall c :: c in columns && MissingCount(rows, c) > 0 ==> exists e :: e in summary && e.column == c
    ensures forall i, j :: 0 <= i < j < |summary| ==> summary[i].percentage >= summary[j].percentage
    ensures (forall i, j :: 0 <= i < j < |columns| ==> columns[i] != columns[j]) ==>
              forall i, j :: 0 <= i < j < |summary| ==> summary[i].column != summary[j].column
  {
    SameElements(summary, entries);
    OneEntryPerColumn(summary, entries, rows);
    forall i, j | 0 <= i < j < |summary| ensures summary[i].percentage >= summary[j].percentage {
      assert key(summary[i]) <= key(summary[j]);
    }
  }

  /** Filling keeps the table well formed: a numeric column is filled with a number. */
  lemma FillColumnValid(t: Table, c: string, v: Value)
    requires t.Valid() && c in t.kinds
    requires t.kinds[c] == Numeric ==> v.Num?
    ensures FillColumn(t, c, v).Valid()
  {
    var r := FillColumn(t, c, v);
    forall i | 0 <= i < |r.rows| ensures r.rows[i].Keys == r.kinds.Keys {
      assert c in t.rows[i];
    }
  }

  /** One iteration of the fill loop on a listed column that exists. */
  lemma FillStep(before: Table, data: Table, cols: seq<string>, k: nat)
    requires k < |cols| && cols[k] in data.columns
    requires data.Valid() && Filled(before, data, cols[..k])
    ensures var col := cols[k];
            var next := FillColumn(data, col, FillValue(data, col));
            next.Valid() && Filled(before, next, cols[..k + 1])
  {
    var col := cols[k];
    var v := FillValue(data, col);
    var next := FillColumn(data, col, v);
    FillColumnValid(data, col, v);
    FirstFillValue(before, data, cols, k);
    forall i, c | 0 <= i < |next.rows| && c in next.kinds
      ensures CellOf(next.rows[i], c) == FilledCell(before, cols[..k + 1], i, c)
    {
      assert data.rows[i].Keys == data.kinds.Keys;
      FillStepCell(before, data, cols, k, v, i, c);
    }
  }

  /** The first time a column is filled, its fill value is the one the
      original table gives: its cells have not changed yet. */
  lemma FirstFillValue(before: Table, data: Table, cols: seq<string>, k: nat)
    requires k < |cols| && cols[k] in data.columns
    requires data.Valid() && Filled(before, data, cols[..k])
    ensures cols[k] !in cols[..k] ==> FillValue(data, cols[k]) == FillValue(before, cols[k])
  {
    var col := cols[k];
    if col !in cols[..k] {
      forall i | 0 <= i < |data.rows| ensures CellOf(before.rows[i], col) == CellOf(data.rows[i], col) {
        assert CellOf(data.rows[i], col) == FilledCell(before, cols[..k], i, col);
      }
      FillValueOfSameColumn(before, data, col);
    }
  }

  lemma FillStepCell(before: Table, data: Table, cols: seq<string>, k: nat, v: Value, i: nat, c: string)
    requires k < |cols| && i < |data.rows| == |before.rows| && c in data.kinds && before.kinds == data.kinds
    requires data.rows[i].Keys == data.kinds.Keys
    requires CellOf(data.rows[i], c) == FilledCell(before, cols[..k], i, c)
    requires c == cols[k] && cols[k] !in cols[..k] ==> v == FillValue(before, c)
    ensures CellOf(FillCell(data.rows[i], cols[k], v), c) == FilledCell(before, cols[..k + 1], i, c)
  {
    assert cols[..k + 1] == cols[..k] + [cols[k]];
    assert c in cols[..k + 1] <==> c in cols[..k] || c == cols[k];
    if c != cols[k] {
      assert CellOf(FillCell(data.rows[i], cols[k], v), c) == CellOf(data.rows[i], c);
    } else if c in cols[..k] {
      assert CellOf(data.rows[i], c).Some?;
    }
  }

  /** One iteration of the fill loop on a listed name that is not a column. */
  lemma SkipStep(before: Table, data: Table, cols: seq<string>, k: nat)
    requires k < |cols| && cols[k] !in data.columns
    requires data.Valid() && Filled(before, data, cols[..k])
    ensures Filled(before, data, cols[..k + 1])
  {
    assert cols[..k + 1] == cols[..k] + [cols[k]];
    forall i, c | 0 <= i < |data.rows| && c in data.kinds
      ensures CellOf(data.rows[i], c) == FilledCell(before, cols[..k + 1], i, c)
    {
      assert CellOf(data.rows[i], c) == FilledCell(before, cols[..k], i, c);
    }
  }

  /** The driver: summarise, bucket the columns by missing percentage, then
      drop the high bucket and fill the moderate and low buckets in turn, each
      call working on the table the previous one left. A column missing
      exactly 20 percent of its cells is in no bucket and keeps its gaps. */
  method CleanData(raw: Table) returns (cleaned: Table)
    requires raw.Valid()
    ensures cleaned.Valid()
    ensures |cleaned.rows| == |raw.rows|
    ensures forall c :: c in cleaned.columns <==> c in raw.columns && MissingPercentage(raw, c) <= 50.0
    ensures cleaned.columns == Remaining(raw.columns, set c | c in raw.columns && MissingPercentage(raw, c) > 50.0)
    ensures forall c :: c in cleaned.kinds ==> c in raw.kinds && cleaned.kinds[c] == raw.kinds[c]
    ensures forall c :: c in cleaned.columns && MissingPercentage(raw, c) != 20.0 ==> MissingCount(cleaned.rows, c) == 0
    ensures forall i, c :: 0 <= i < |raw.rows| && c in cleaned.columns && CellOf(raw.rows[i], c).Some? ==>
              CellOf(cleaned.rows[i], c) == CellOf(raw.rows[i], c)
    ensures forall i, c :: 0 <= i < |raw.rows| && c in cleaned.columns && MissingPercentage(raw, c) == 20.0 ==>
              CellOf(cleaned.rows[i], c) == CellOf(raw.rows[i], c)
    ensures forall i, c :: 0 <= i < |raw.rows| && c in cleaned.columns && MissingPercentage(raw, c) != 20.0 && CellOf(raw.rows[i], c).None? ==>
              c in raw.kinds && CellOf(cleaned.rows[i], c) == Some(FillValue(raw, c))
  {
    var processor := new DataProcessing(raw);
    var summary := processor.MissingDataSummary();
    var highMissing := ColumnsIn(summary, High);
    var moderateMissing := ColumnsIn(summary, Moderate);
    var lowMissing := ColumnsIn(summary, Low);
    var afterDrop := processor.HandleMissingData("high", highMissing);
    var afterModerate := processor.HandleMissingData("moderate", moderateMissing);
    cleaned := processor.HandleMissingData("low", lowMissing);
    BucketsOfColumns(raw, summary);
    CleanOutcome(raw, summary, afterDrop, afterModerate, cleaned);
    CleanFillValues(raw, summary, afterDrop, afterModerate, cleaned);
    CleanColumns(raw, summary, afterDrop, afterModerate, cleaned);
  }

  /** The driver keeps the order of the columns it does not drop, and their dtypes. */
  lemma CleanColumns(raw: Table, summary: seq<SummaryEntry>, afterDrop: Table, afterModerate: Table, cleaned: Table)
    requires raw.Valid()
    requires forall c :: c in ColumnsIn(summary, High) <==> c in raw.columns && MissingPercentage(raw, c) > 50.0
    requires afterDrop.columns == Remaining(raw.columns, set c | c in ColumnsIn(summary, High))
    requires forall c :: c in afterDrop.kinds ==> c in raw.kinds && afterDrop.kinds[c] == raw.kinds[c]
    requires afterModerate.columns == afterDrop.columns && afterModerate.kinds == afterDrop.kinds
    requires cleaned.columns == afterModerate.columns && cleaned.kinds == afterModerate.kinds
    ensures cleaned.columns == Remaining(raw.columns, set c | c in raw.columns && MissingPercentage(raw, c) > 50.0)
    ensures forall c :: c in cleaned.kinds ==> c in raw.kinds && cleaned.kinds[c] == raw.kinds[c]
  {
    var dropped := set c | c in ColumnsIn(summary, High);
    var overHalf := set c | c in raw.columns && MissingPercentage(raw, c) > 50.0;
    forall c ensures c in dropped <==> c in overHalf {
    }
    assert dropped == overHalf;
  }

  /** What the three calls of the driver leave, given each call's contract. */
  lemma CleanOutcome(raw: Table, summary: seq<SummaryEntry>, afterDrop: Table, afterModerate: Table, cleaned: Table)
    requires raw.Valid() && afterDrop.Valid() && afterModerate.Valid() && cleaned.Valid()
    requires forall c :: c in ColumnsIn(summary, High) <==> c in raw.columns && MissingPercentage(raw, c) > 50.0
    requires forall c :: c in ColumnsIn(summary, Moderate) <==> c in raw.columns && 20.0 < MissingPercentage(raw, c) <= 50.0
    requires forall c :: c in ColumnsIn(summary, Low) <==> c in raw.columns && 0.0 < MissingPercentage(raw, c) < 20.0
    requires afterDrop == DropColumns(raw, ColumnsIn(summary, High))
    requires Filled(afterDrop, afterModerate, ColumnsIn(summary, Moderate))
    requires Filled(afterModerate, cleaned, ColumnsIn(summary, Low))
    ensures |cleaned.rows| == |raw.rows|
    ensures forall c :: c in cleaned.columns <==> c in raw.columns && MissingPercentage(raw, c) <= 50.0
    ensures forall c :: c in cleaned.columns && MissingPercentage(raw, c) != 20.0 ==> MissingCount(cleaned.rows, c) == 0
    ensures forall i, c :: 0 <= i < |raw.rows| && c in cleaned.columns && CellOf(raw.rows[i], c).Some? ==>
              CellOf(cleaned.rows[i], c) == CellOf(raw.rows[i], c)
    ensures forall i, c :: 0 <= i < |raw.rows| && c in cleaned.columns && MissingPercentage(raw, c) == 20.0 ==>
              CellOf(cleaned.rows[i], c) == CellOf(raw.rows[i], c)
  {
    var moderate, low := ColumnsIn(summary, Moderate), ColumnsIn(summary, Low);
    forall i, c | 0 <= i < |raw.rows| && c in cleaned.columns
      ensures CellOf(raw.rows[i], c).Some? || MissingPercentage(raw, c) == 20.0 ==> CellOf(cleaned.rows[i], c) == CellOf(raw.rows[i], c)
      ensures MissingPercentage(raw, c) != 20.0 ==> CellOf(cleaned.rows[i], c).Some?
    {
      CleanRawCell(raw, summary, afterDrop, afterModerate, cleaned, i, c);
    }
    forall c | c in cleaned.columns && MissingPercentage(raw, c) != 20.0 ensures MissingCount(cleaned.rows, c) == 0 {
      assert forall i :: 0 <= i < |cleaned.rows| ==> CellOf(cleaned.rows[i], c).Some?;
    }
  }

  /** Every gap the driver fills gets the fill value of the raw table's
      column: the moderate and low lists are disjoint, so each column is
      filled once, from cells no earlier call has changed. */
  lemma CleanFillValues(raw: Table, summary: seq<SummaryEntry>, afterDrop: Table, afterModerate: Table, cleaned: Table)
    requires raw.Valid() && afterDrop.Valid() && afterModerate.Valid() && cleaned.Valid()
    requires forall c :: c in ColumnsIn(summary, High) <==> c in raw.columns && MissingPercentage(raw, c) > 50.0
    requires forall c :: c in ColumnsIn(summary, Moderate) <==> c in raw.columns && 20.0 < MissingPercentage(raw, c) <= 50.0
    requires forall c :: c in ColumnsIn(summary, Low) <==> c in raw.columns && 0.0 < MissingPercentage(raw, c) < 20.0
    requires afterDrop == DropColumns(raw, ColumnsIn(summary, High))
    requires Filled(afterDrop, afterModerate, ColumnsIn(summary, Moderate))
    requires Filled(afterModerate, cleaned, ColumnsIn(summary, Low))
    ensures forall i, c :: 0 <= i < |raw.rows| && c in cleaned.columns && MissingPercentage(raw, c) != 20.0 && CellOf(raw.rows[i], c).None? ==>
              c in raw.kinds && CellOf(cleaned.rows[i], c) == Some(FillValue(raw, c))
  {
    forall i, c | 0 <= i < |raw.rows| && c in cleaned.columns && MissingPercentage(raw, c) != 20.0 && CellOf(raw.rows[i], c).None?
      ensures c in raw.kinds && CellOf(cleaned.rows[i], c) == Some(FillValue(raw, c))
    {
      CleanRawCell(raw, summary, afterDrop, afterModerate, cleaned, i, c);
    }
  }

  /** One raw cell through the driver, in terms of the raw table. */
  lemma CleanRawCell(raw: Table, summary: seq<SummaryEntry>, afterDrop: Table, afterModerate: Table, cleaned: Table, i: nat, c: string)
    requires raw.Valid() && afterDrop.Valid() && afterModerate.Valid() && cleaned.Valid()
    requires forall c :: c in ColumnsIn(summary, Moderate) <==> c in raw.columns && 20.0 < MissingPercentage(raw, c) <= 50.0
    requires forall c :: c in ColumnsIn(summary, Low) <==> c in raw.columns && 0.0 < MissingPercentage(raw, c) < 20.0
    requires afterDrop == DropColumns(raw, ColumnsIn(summary, High))
    requires Filled(afterDrop, afterModerate, ColumnsIn(summary, Moderate))
    requires Filled(afterModerate, cleaned, ColumnsIn(summary, Low))
    requires i < |raw.rows| && c in cleaned.columns && MissingPercentage(raw, c) <= 50.0
    ensures CellOf(raw.rows[i], c).Some? || MissingPercentage(raw, c) == 20.0 ==> CellOf(cleaned.rows[i], c) == CellOf(raw.rows[i], c)
    ensures MissingPercentage(raw, c) != 20.0 ==> CellOf(cleaned.rows[i], c).Some?
    ensures MissingPercentage(raw, c) != 20.0 && CellOf(raw.rows[i], c).None? ==>
              c in raw.kinds && CellOf(cleaned.rows[i], c) == Some(FillValue(raw, c))
  {
    var moderate, low := ColumnsIn(summary, Moderate), ColumnsIn(summary, Low);
    assert c in afterDrop.kinds && c in raw.kinds;
    assert CellOf(afterDrop.rows[i], c) == CellOf(raw.rows[i], c);
    CleanCell(afterDrop, afterModerate, cleaned, moderate, low, i, c);
    ColumnFillValues(raw, afterDrop, afterModerate, moderate, c);
    PercentageZero(raw, c);
    if MissingPercentage(raw, c) == 0.0 {
      assert MissingCount(raw.rows, c) == 0;
    }
    if CellOf(raw.rows[i], c).None? {
      assert MissingCount(raw.rows, c) != 0;
    }
  }

  /** One cell through the two fills: a listed column ends up non-missing, and
      a cell that was present, or whose column is in neither list, is kept. */
  lemma CleanCell(afterDrop: Table, afterModerate: Table, cleaned: Table, moderate: seq<string>, low: seq<string>, i: nat, c: string)
    requires Filled(afterDrop, afterModerate, moderate) && Filled(afterModerate, cleaned, low)
    requires i < |afterDrop.rows| && c in afterDrop.kinds
    ensures c in moderate || c in low ==> CellOf(cleaned.rows[i], c).Some?
    ensures CellOf(afterDrop.rows[i], c).Some? || (c !in moderate && c !in low) ==>
              CellOf(cleaned.rows[i], c) == CellOf(afterDrop.rows[i], c)
    ensures CellOf(afterDrop.rows[i], c).None? && c in moderate ==>
              CellOf(cleaned.rows[i], c) == Some(FillValue(afterDrop, c))
    ensures CellOf(afterDrop.rows[i], c).None? && c !in moderate && c in low ==>
              CellOf(cleaned.rows[i], c) == Some(FillValue(afterModerate, c))
  {
    assert CellOf(afterModerate.rows[i], c) == FilledCell(afterDrop, moderate, i, c);
    assert CellOf(cleaned.rows[i], c) == FilledCell(afterModerate, low, i, c);
  }

  /** The fill values the two fills use for column `c` are those of the raw
      table: dropping leaves the column's cells alone, and so does the
      moderate fill when `c` is not in its list. */
  lemma ColumnFillValues(raw: Table, afterDrop: Table, afterModerate: Table, moderate: seq<string>, c: string)
    requires c in raw.kinds && c in afterDrop.kinds && afterDrop.kinds[c] == raw.kinds[c]
    requires |afterDrop.rows| == |raw.rows|
    requires forall i :: 0 <= i < |raw.rows| ==> CellOf(afterDrop.rows[i], c) == CellOf(raw.rows[i], c)
    requires Filled(afterDrop, afterModerate, moderate)
    ensures FillValue(afterDrop, c) == FillValue(raw, c)
    ensures c !in moderate ==> FillValue(afterModerate, c) == FillValue(raw, c)
  {
    FillValueOfSameColumn(raw, afterDrop, c);
    if c !in moderate {
      forall i | 0 <= i < |afterDrop.rows| ensures CellOf(afterModerate.rows[i], c) == CellOf(afterDrop.rows[i], c) {
        assert CellOf(afterModerate.rows[i], c) == FilledCell(afterDrop, moderate, i, c);
      }
      FillValueOfSameColumn(afterDrop, afterModerate, c);
    }
  }

  /** A missing percentage is never negative, and is zero only for a column
      without missing cells. */
  lemma PercentageZero(t: Table, c: string)
    ensures MissingPercentage(t, c) >= 0.0
    ensures MissingPercentage(t, c) == 0.0 <==> MissingCount(t.rows, c) == 0
  {
    if |t.rows| > 0 {
      var n, r := MissingCount(t.rows, c) as real, |t.rows| as real;
      assert n / r >= 0.0;
      if n > 0.0 {
        assert n / r > 0.0;
      }
    }
  }


  /** Which bucket list a column lands in, in terms of the raw table. */
  lemma BucketsOfColumns(raw: Table, summary: seq<SummaryEntry>)
    requires forall e :: e in summary ==>
               && e.column in raw.columns
               && e.missingCount == MissingCount(raw.rows, e.column) > 0
               && e.percentage == Percentage(e.missingCount, |raw.rows|)
    requires forall c :: c in raw.columns && MissingCount(raw.rows, c) > 0 ==> exists e :: e in summary && e.column == c
    ensures forall c :: c in ColumnsIn(summary, High) <==> c in raw.columns && MissingPercentage(raw, c) > 50.0
    ensures forall c :: c in ColumnsIn(summary, Moderate) <==> c in raw.columns && 20.0 < MissingPercentage(raw, c) <= 50.0
    ensures forall c :: c in ColumnsIn(summary, Low) <==> c in raw.columns && 0.0 < MissingPercentage(raw, c) < 20.0
  {
    forall c | c in raw.columns ensures MissingPercentage(raw, c) > 0.0 <==> MissingCount(raw.rows, c) > 0 {
      PercentageZero(raw, c);
    }
  }
}
