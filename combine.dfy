/** combine.py: merges the annotation files of several annotators into one
    table, by row position. The first file gives the rows and their base
    columns; each file k (counting from 1) gives the columns
    `explicitness-annotator-k` and `target-annotator-k`. */
module Combine {

  import opened Tables

  // ---------------------------------------------------------------------
  // Column names

  /** The character of one decimal digit. */
  function DigitChar(d: nat): char
    requires d < 10
  {
    ('0' as int + d) as char
  }

  /** `f'{n}'`: the decimal form of n, without leading zeros. */
  function DecimalString(n: nat): (s: string)
    ensures |s| >= 1
    ensures |s| == 1 <==> n < 10
  {
    if n < 10 then [DigitChar(n)] else DecimalString(n / 10) + [DigitChar(n % 10)]
  }

  /** Distinct numbers have distinct decimal forms. */
  lemma {:induction false} DecimalInjective(a: nat, b: nat)
    requires DecimalString(a) == DecimalString(b)
    ensures a == b
  {
    var s := DecimalString(a);
    if a >= 10 {
      assert b >= 10;
      assert s[|s| - 1] == DigitChar(a % 10) == DigitChar(b % 10);
      assert s[..|s| - 1] == DecimalString(a / 10) == DecimalString(b / 10);
      DecimalInjective(a / 10, b / 10);
    }
  }

  const EXPLICITNESS_PREFIX := "explicitness-annotator-"
  const TARGET_PREFIX := "target-annotator-"

  /** `f'explicitness-annotator-{n}'`. */
  function ExplColumn(n: nat): string
  {
    EXPLICITNESS_PREFIX + DecimalString(n)
  }

  /** `f'target-annotator-{n}'`. */
  function TargColumn(n: nat): string
  {
    TARGET_PREFIX + DecimalString(n)
  }

  /** The columns every output starts with. */
  const BASE_FIELDS := ["id", "text", "user", "source", "user.description", "split"]

  /** Annotator columns are distinct from each other, from the columns read
      from each file and from the base columns. */
  lemma ColumnsDistinct(a: nat, b: nat)
    ensures ExplColumn(a) == ExplColumn(b) ==> a == b
    ensures TargColumn(a) == TargColumn(b) ==> a == b
    ensures ExplColumn(a) != TargColumn(b)
    ensures ExplColumn(a) != "explicitness" && ExplColumn(a) != "target"
    ensures TargColumn(a) != "explicitness" && TargColumn(a) != "target"
    ensures ExplColumn(a) !in BASE_FIELDS && TargColumn(a) !in BASE_FIELDS
  {
    if ExplColumn(a) == ExplColumn(b) {
      assert DecimalString(a) == ExplColumn(a)[|EXPLICITNESS_PREFIX|..] == ExplColumn(b)[|EXPLICITNESS_PREFIX|..] == DecimalString(b);
      DecimalInjective(a, b);
    }
    if TargColumn(a) == TargColumn(b) {
      assert DecimalString(a) == TargColumn(a)[|TARGET_PREFIX|..] == TargColumn(b)[|TARGET_PREFIX|..] == DecimalString(b);
      DecimalInjective(a, b);
    }
    assert ExplColumn(a)[0] == 'e' && TargColumn(b)[0] == 't';
  }

  /** `fieldnames` after n files: the base columns, then the two columns of
      each annotator 1..n. */
  function Header(n: nat): seq<string>
  {
    if n == 0 then BASE_FIELDS else Header(n - 1) + [ExplColumn(n), TargColumn(n)]
  }

  /** The header has the six base columns first and two more per file. */
  lemma {:induction false} HeaderLength(n: nat)
    ensures |Header(n)| == 6 + 2 * n
    ensures Header(n)[..6] == BASE_FIELDS
  {
    if n > 0 {
      HeaderLength(n - 1);
      assert Header(n)[..6] == Header(n - 1)[..6];
    }
  }

  /** The two header columns of annotator a, by position. */
  lemma {:induction false} HeaderAt(n: nat, a: nat)
    requires 1 <= a <= n
    ensures |Header(n)| == 6 + 2 * n
    ensures Header(n)[4 + 2 * a] == ExplColumn(a) && Header(n)[5 + 2 * a] == TargColumn(a)
  {
    HeaderLength(n);
    if a < n {
      HeaderAt(n - 1, a);
      assert Header(n) == Header(n - 1) + [ExplColumn(n), TargColumn(n)];
    }
  }

  /** The header's layout: six base columns, then explicitness and target of
      annotator k at positions 4+2k and 5+2k. */
  lemma HeaderShape(n: nat)
    ensures |Header(n)| == 6 + 2 * n
    ensures Header(n)[..6] == BASE_FIELDS
    ensures forall k :: 1 <= k <= n ==> Header(n)[4 + 2 * k] == ExplColumn(k) && Header(n)[5 + 2 * k] == TargColumn(k)
  {
    HeaderLength(n);
    forall k | 1 <= k <= n
      ensures Header(n)[4 + 2 * k] == ExplColumn(k) && Header(n)[5 + 2 * k] == TargColumn(k)
    {
      HeaderAt(n, k);
    }
  }

  /** The base columns are six different names. */
  lemma BaseDistinct()
    ensures forall p, q :: 0 <= p < q < 6 ==> BASE_FIELDS[p] != BASE_FIELDS[q]
  {
  }

  /** Position p past the base columns holds annotator a's explicitness
      column (`expl`) or target column. */
  lemma ColumnAt(n: nat, p: nat) returns (a: nat, expl: bool)
    requires 6 <= p < |Header(n)|
    ensures 1 <= a <= n && p == 4 + 2 * a + (if expl then 0 else 1)
    ensures Header(n)[p] == if expl then ExplColumn(a) else TargColumn(a)
  {
    HeaderLength(n);
    a := (p - 4) / 2;
    expl := p == 4 + 2 * a;
    HeaderAt(n, a);
  }

  /** No column name appears twice in the header. */
  lemma HeaderDistinct(n: nat)
    ensures forall p, q :: 0 <= p < q < |Header(n)| ==> Header(n)[p] != Header(n)[q]
  {
    HeaderLength(n);
    forall p, q | 0 <= p < q < |Header(n)|
      ensures Header(n)[p] != Header(n)[q]
    {
      var h := Header(n);
      if q < 6 {
        BaseDistinct();
        assert h[p] == BASE_FIELDS[p] && h[q] == BASE_FIELDS[q];
      } else {
        var b, eb := ColumnAt(n, q);
        ColumnsDistinct(b, b);
        if p < 6 {
          assert h[p] == BASE_FIELDS[p];
        } else {
          var a, ea := ColumnAt(n, p);
          ColumnsDistinct(a, b);
          ColumnsDistinct(b, a);
        }
      }
    }
  }

  // ---------------------------------------------------------------------
  // The merge

  /** Why a merge stops: a `KeyError` on a column of row `row` of file `file`
      (both counted from 0), or an `IndexError` when a later file has a row
      the first one does not. */
  datatype CombineError =
    | MissingColumn(file: nat, row: nat, column: string)
    | NoSuchRow(file: nat, row: nat)

  /** A row of the first file with its two columns moved to annotator 1. */
  function Moved(row: Row): Row
    requires "explicitness" in row && "target" in row
  {
    (row - {"explicitness", "target"})[ExplColumn(1) := row["explicitness"]][TargColumn(1) := row["target"]]
  }

  /** A merged line with the values of a row of file k (0-based) added as
      annotator k+1. */
  function Put(line: Row, k: nat, row: Row): Row
    requires "explicitness" in row && "target" in row
  {
    line[ExplColumn(k + 1) := row["explicitness"]][TargColumn(k + 1) := row["target"]]
  }

  /** One pass of the inner loop: row i of file k. */
  function MergeRow(lines: seq<Row>, k: nat, i: nat, row: Row): Result<seq<Row>, CombineError>
  {
    if "explicitness" !in row then Err(MissingColumn(k, i, "explicitness"))
    else if "target" !in row then Err(MissingColumn(k, i, "target"))
    else if k == 0 then Ok(lines + [Moved(row)])
    else if i < |lines| then Ok(lines[i := Put(lines[i], k, row)])
    else Err(NoSuchRow(k, i))
  }

  /** The inner loop over the rows of file k. */
  function MergeFile(lines: seq<Row>, k: nat, rows: seq<Row>): Result<seq<Row>, CombineError>
    decreases |rows|
  {
    if rows == [] then Ok(lines)
    else
      match MergeFile(lines, k, rows[..|rows| - 1])
      case Err(e) => Err(e)
      case Ok(merged) => MergeRow(merged, k, |rows| - 1, rows[|rows| - 1])
  }

  /** The outer loop over the files. */
  function Merge(files: seq<seq<Row>>): Result<seq<Row>, CombineError>
  {
    if files == [] then Ok([])
    else
      match Merge(files[..|files| - 1])
      case Err(e) => Err(e)
      case Ok(lines) => MergeFile(lines, |files| - 1, files[|files| - 1])
  }

  /** What `main` has built when it comes to write. */
  datatype Combined = Combined(fieldnames: seq<string>, lines: seq<Row>)

  /** `main(files)`: the header and the merged lines, or how it stopped. */
  function CombineAll(files: seq<seq<Row>>): Result<Combined, CombineError>
  {
    match Merge(files)
    case Err(e) => Err(e)
    case Ok(lines) => Ok(Combined(Header(|files|), lines))
  }

  /** The file `main` writes: the header line, then each merged line's cells
      of the header columns, empty where a line lacks one. */
  function Written(c: Combined): (table: seq<seq<string>>)
    ensures |table| == |c.lines| + 1
  {
    [c.fieldnames] + seq(|c.lines|, i requires 0 <= i < |c.lines| => Project(c.fieldnames, c.lines[i]))
  }

  lemma {:induction false} FileErrorSticks(lines: seq<Row>, k: nat, rows: seq<Row>, all: seq<Row>)
    requires rows <= all && MergeFile(lines, k, rows).Err?
    ensures MergeFile(lines, k, all) == MergeFile(lines, k, rows)
    decreases |all|
  {
    if |all| > |rows| {
      assert rows <= all[..|all| - 1];
      FileErrorSticks(lines, k, rows, all[..|all| - 1]);
    } else {
      assert all == rows;
    }
  }

  lemma {:induction false} MergeErrorSticks(files: seq<seq<Row>>, all: seq<seq<Row>>)
    requires files <= all && Merge(files).Err?
    ensures Merge(all) == Merge(files)
    decreases |all|
  {
    if |all| > |files| {
      assert files <= all[..|all| - 1];
      MergeErrorSticks(files, all[..|all| - 1]);
    } else {
      assert all == files;
    }
  }

  /** `main`'s loops. */
  method CombineFiles(files: seq<seq<Row>>) returns (r: Result<Combined, CombineError>)
    ensures r == CombineAll(files)
  {
    var lines: seq<Row> := [];
    var fieldnames := BASE_FIELDS;
    for k := 0 to |files|
      invariant fieldnames == Header(k)
      invariant Merge(files[..k]) == Ok(lines)
    {
      fieldnames := fieldnames + [ExplColumn(k + 1), TargColumn(k + 1)];
      var rows := files[k];
      ghost var before := lines;
      assert files[..k + 1][..k] == files[..k];
      for i := 0 to |rows|
        invariant MergeFile(before, k, rows[..i]) == Ok(lines)
      {
        var row := rows[i];
        assert rows[..i + 1][..i] == rows[..i];
        var failure: Option<CombineError> := None;
        if "explicitness" !in row {
          failure := Some(MissingColumn(k, i, "explicitness"));
        } else if "target" !in row {
          failure := Some(MissingColumn(k, i, "target"));
        } else if k == 0 {
          lines := lines + [Moved(row)];
        } else if i < |lines| {
          var line := lines[i];
          lines := lines[i := Put(line, k, row)];
        } else {
          failure := Some(NoSuchRow(k, i));
        }
        if failure.Some? {
          FileErrorSticks(before, k, rows[..i + 1], rows);
          assert rows[..|rows|] == rows;
          MergeErrorSticks(files[..k + 1], files);
          return Err(failure.value);
        }
      }
      assert rows[..|rows|] == rows;
    }
    assert files[..|files|] == files;
    return Ok(Combined(fieldnames, lines));
  }

  // ---------------------------------------------------------------------
  // Properties of the merge

  /** A row that has both columns every file must carry. */
  predicate HasColumns(row: Row)
  {
    "explicitness" in row && "target" in row
  }

  /** The first file's rows become the lines, one each, in order, with the
      two columns moved; it fails exactly on its first row lacking a column. */
  lemma {:induction false} FirstFile(rows: seq<Row>)
    ensures MergeFile([], 0, rows).Ok? <==> forall i :: 0 <= i < |rows| ==> HasColumns(rows[i])
    ensures MergeFile([], 0, rows).Ok? ==>
      |MergeFile([], 0, rows).value| == |rows| &&
      forall i :: 0 <= i < |rows| ==> MergeFile([], 0, rows).value[i] == Moved(rows[i])
    decreases |rows|
  {
    if rows != [] {
      var init := rows[..|rows| - 1];
      assert forall i :: 0 <= i < |init| ==> init[i] == rows[i];
      FirstFile(init);
      if MergeFile([], 0, init).Err? {
        FileErrorSticks([], 0, init, rows);
      }
    }
  }

  /** A later file k > 0 adds its row i's values to line i and changes
      nothing else; it fails exactly when a row lacks a column or has no
      line of the same position. */
  lemma {:induction false} LaterFile(lines: seq<Row>, k: nat, rows: seq<Row>)
    requires k > 0
    ensures MergeFile(lines, k, rows).Ok? <==>
      |rows| <= |lines| && forall i :: 0 <= i < |rows| ==> HasColumns(rows[i])
    ensures MergeFile(lines, k, rows).Ok? ==>
      |MergeFile(lines, k, rows).value| == |lines| &&
      forall i :: 0 <= i < |lines| ==>
        MergeFile(lines, k, rows).value[i] == if i < |rows| then Put(lines[i], k, rows[i]) else lines[i]
    decreases |rows|
  {
    if rows != [] {
      var init := rows[..|rows| - 1];
      assert forall i :: 0 <= i < |init| ==> init[i] == rows[i];
      LaterFile(lines, k, init);
      if MergeFile(lines, k, init).Err? {
        FileErrorSticks(lines, k, init, rows);
      }
    }
  }

  /** The merge succeeds exactly when every row of every file has both
      columns and no later file is longer than the first. */
  lemma {:induction false} MergeSucceeds(files: seq<seq<Row>>)
    ensures Merge(files).Ok? <==>
      (forall k, i :: 0 <= k < |files| && 0 <= i < |files[k]| ==> HasColumns(files[k][i])) &&
      (forall k :: 0 < k < |files| ==> |files[k]| <= |files[0]|)
    ensures Merge(files).Ok? ==> |Merge(files).value| == if files == [] then 0 else |files[0]|
    decreases |files|
  {
    if files != [] {
      var init, last := files[..|files| - 1], files[|files| - 1];
      assert forall k :: 0 <= k < |init| ==> init[k] == files[k];
      MergeSucceeds(init);
      if Merge(init).Ok? {
        if |files| == 1 {
          FirstFile(last);
        } else {
          LaterFile(Merge(init).value, |files| - 1, last);
        }
      }
    }
  }

  /** The last file of a successful merge of one file is the first file. */
  lemma FirstStep(files: seq<seq<Row>>, i: nat)
    requires Merge(files).Ok? && |files| == 1 && i < |files[0]|
    ensures HasColumns(files[0][i]) && i < |Merge(files).value| && Merge(files).value[i] == Moved(files[0][i])
  {
    assert files[..0] == [];
    FirstFile(files[0]);
  }

  /** The last file of a successful merge of several files is a later file. */
  lemma MergeStep(files: seq<seq<Row>>, i: nat)
    requires Merge(files).Ok? && |files| > 1
    ensures var init, last := files[..|files| - 1], files[|files| - 1];
      && Merge(init).Ok?
      && |Merge(files).value| == |Merge(init).value|
      && (i < |last| ==> HasColumns(last[i]))
      && (i < |Merge(init).value| ==>
        Merge(files).value[i] == if i < |last| then Put(Merge(init).value[i], |files| - 1, last[i]) else Merge(init).value[i])
  {
    var init, last := files[..|files| - 1], files[|files| - 1];
    MergeErrorSticksOk(init, files);
    LaterFile(Merge(init).value, |files| - 1, last);
  }

  /** Adding a file's values leaves the columns of other annotators alone. */
  lemma PutKeeps(line: Row, k: nat, row: Row, c: string)
    requires HasColumns(row) && c != ExplColumn(k + 1) && c != TargColumn(k + 1)
    ensures Lookup(Put(line, k, row), c) == Lookup(line, c)
  {
  }

  /** A column that no file writes: not one of the two read columns and not
      an annotator column of any of the n files. */
  predicate Untouched(c: string, n: nat)
  {
    c != "explicitness" && c != "target" && forall a :: 1 <= a <= n ==> c != ExplColumn(a) && c != TargColumn(a)
  }

  /** Every other column of line i is the first file's row i's: base fields
      come from the first file only, and `explicitness` and `target` are
      gone. */
  lemma {:induction false} KeepsFirstFile(files: seq<seq<Row>>, i: nat, c: string)
    requires Merge(files).Ok? && files != [] && i < |files[0]|
    ensures i < |Merge(files).value|
    ensures Untouched(c, |files|) ==> Lookup(Merge(files).value[i], c) == Lookup(files[0][i], c)
    ensures "explicitness" !in Merge(files).value[i] && "target" !in Merge(files).value[i]
    decreases |files|
  {
    MergeSucceeds(files);
    ColumnsDistinct(|files|, |files|);
    if |files| == 1 {
      FirstStep(files, i);
    } else {
      var init := files[..|files| - 1];
      assert init[0] == files[0];
      MergeStep(files, i);
      KeepsFirstFile(init, i, c);
      if i < |files[|files| - 1]| && Untouched(c, |files|) {
        PutKeeps(Merge(init).value[i], |files| - 1, files[|files| - 1][i], c);
      }
    }
  }

  /** A prefix of a successful merge succeeds. */
  lemma MergeErrorSticksOk(files: seq<seq<Row>>, all: seq<seq<Row>>)
    requires files <= all && Merge(all).Ok?
    ensures Merge(files).Ok?
  {
    if Merge(files).Err? {
      MergeErrorSticks(files, all);
    }
  }

  /** Line i's annotator-1 columns hold the first file's row i's values. */
  lemma {:induction false} FirstAnnotator(files: seq<seq<Row>>, i: nat)
    requires Merge(files).Ok? && files != [] && i < |files[0]|
    ensures i < |Merge(files).value| && HasColumns(files[0][i])
    ensures Lookup(Merge(files).value[i], ExplColumn(1)) == Some(files[0][i]["explicitness"])
    ensures Lookup(Merge(files).value[i], TargColumn(1)) == Some(files[0][i]["target"])
    decreases |files|
  {
    MergeSucceeds(files);
    if |files| == 1 {
      FirstStep(files, i);
    } else {
      var init := files[..|files| - 1];
      assert init[0] == files[0];
      MergeStep(files, i);
      FirstAnnotator(init, i);
      ColumnsDistinct(1, |files|);
      ColumnsDistinct(|files|, 1);
      if i < |files[|files| - 1]| {
        PutKeeps(Merge(init).value[i], |files| - 1, files[|files| - 1][i], ExplColumn(1));
        PutKeeps(Merge(init).value[i], |files| - 1, files[|files| - 1][i], TargColumn(1));
      }
    }
  }

  /** Line i's columns of annotator k+1 (file k > 0) hold row i of file k,
      matched by position only; when file k is shorter they are whatever the
      first file's row had under that name. */
  lemma {:induction false} LaterAnnotator(files: seq<seq<Row>>, k: nat, i: nat)
    requires Merge(files).Ok? && 0 < k < |files| && i < |files[0]|
    ensures i < |Merge(files).value|
    ensures i < |files[k]| ==> HasColumns(files[k][i])
    ensures Lookup(Merge(files).value[i], ExplColumn(k + 1)) ==
      if i < |files[k]| then Some(files[k][i]["explicitness"]) else Lookup(files[0][i], ExplColumn(k + 1))
    ensures Lookup(Merge(files).value[i], TargColumn(k + 1)) ==
      if i < |files[k]| then Some(files[k][i]["target"]) else Lookup(files[0][i], TargColumn(k + 1))
    decreases |files|
  {
    MergeSucceeds(files);
    var init := files[..|files| - 1];
    assert init[0] == files[0];
    MergeStep(files, i);
    var e, t := ExplColumn(k + 1), TargColumn(k + 1);
    ColumnsDistinct(k + 1, |files|);
    ColumnsDistinct(|files|, k + 1);
    if k == |files| - 1 {
      forall a | 1 <= a <= |init|
        ensures e != ExplColumn(a) && e != TargColumn(a) && t != ExplColumn(a) && t != TargColumn(a)
      {
        ColumnsDistinct(k + 1, a);
        ColumnsDistinct(a, k + 1);
      }
      KeepsFirstFile(init, i, e);
      KeepsFirstFile(init, i, t);
    } else {
      assert init[k] == files[k];
      LaterAnnotator(init, k, i);
      if i < |files[|files| - 1]| {
        PutKeeps(Merge(init).value[i], |files| - 1, files[|files| - 1][i], e);
        PutKeeps(Merge(init).value[i], |files| - 1, files[|files| - 1][i], t);
      }
    }
  }

  /** One cell of the written file: the line's cell under the column at
      that position of the header. */
  lemma WrittenCell(c: Combined, i: nat, p: nat, column: string)
    requires i < |c.lines| && p < |c.fieldnames| && c.fieldnames[p] == column
    ensures |Written(c)[i + 1]| == |c.fieldnames|
    ensures Written(c)[i + 1][p] == Cell(c.lines[i], column)
  {
    assert Written(c)[i + 1] == Project(c.fieldnames, c.lines[i]);
  }

  /** The cells line i gets under annotator k+1: row i of file k's values,
      or empty when file k is shorter and the first file has no such
      column. */
  lemma MergedCells(files: seq<seq<Row>>, k: nat, i: nat)
    requires Merge(files).Ok? && k < |files| && i < |files[0]|
    ensures i < |Merge(files).value|
    ensures Cell(Merge(files).value[i], ExplColumn(k + 1)) ==
      if i < |files[k]| then Cell(files[k][i], "explicitness") else Cell(files[0][i], ExplColumn(k + 1))
    ensures Cell(Merge(files).value[i], TargColumn(k + 1)) ==
      if i < |files[k]| then Cell(files[k][i], "target") else Cell(files[0][i], TargColumn(k + 1))
  {
    FirstAnnotator(files, i);
    var line := Merge(files).value[i];
    if k == 0 {
      SameCell(line, ExplColumn(1), files[0][i], "explicitness");
      SameCell(line, TargColumn(1), files[0][i], "target");
    } else {
      LaterAnnotator(files, k, i);
      if i < |files[k]| {
        SameCell(line, ExplColumn(k + 1), files[k][i], "explicitness");
        SameCell(line, TargColumn(k + 1), files[k][i], "target");
      } else {
        SameCell(line, ExplColumn(k + 1), files[0][i], ExplColumn(k + 1));
        SameCell(line, TargColumn(k + 1), files[0][i], TargColumn(k + 1));
      }
    }
  }

  /** In a written table whose header has annotator k+1's columns at 6+2k
      and 7+2k, line i's cells there are the line's cells of those columns. */
  lemma TableCellsAt(c: Combined, n: nat, k: nat, i: nat)
    requires |c.fieldnames| == 6 + 2 * n && k < n && i < |c.lines|
    requires c.fieldnames[6 + 2 * k] == ExplColumn(k + 1) && c.fieldnames[7 + 2 * k] == TargColumn(k + 1)
    ensures var table := Written(c);
      && i + 1 < |table| && |table[i + 1]| == 6 + 2 * n
      && table[i + 1][6 + 2 * k] == Cell(c.lines[i], ExplColumn(k + 1))
      && table[i + 1][7 + 2 * k] == Cell(c.lines[i], TargColumn(k + 1))
  {
    WrittenCell(c, i, 6 + 2 * k, ExplColumn(k + 1));
    WrittenCell(c, i, 7 + 2 * k, TargColumn(k + 1));
  }

  /** Columns that look up alike are written alike. */
  lemma SameCell(r: Row, c: string, r2: Row, c2: string)
    requires Lookup(r, c) == Lookup(r2, c2)
    ensures Cell(r, c) == Cell(r2, c2)
  {
  }

  /** Row i of a file is merged with line i whatever its id: two files whose
      rows are in different orders pair up rows of different tweets. */
  lemma PositionNotId(a: Row, b: Row)
    requires HasColumns(a) && HasColumns(b) && "id" in a && "id" in b
    ensures var files := [[a, b], [b, a]];
      && Merge(files).Ok?
      && Lookup(Merge(files).value[0], "id") == Some(a["id"])
      && Lookup(Merge(files).value[0], ExplColumn(2)) == Some(b["explicitness"])
  {
    var files := [[a, b], [b, a]];
    MergeSucceeds(files);
    ColumnsDistinct(2, 2);
    assert "id" in BASE_FIELDS;
    KeepsFirstFile(files, 0, "id");
    LaterAnnotator(files, 1, 0);
  }
}
