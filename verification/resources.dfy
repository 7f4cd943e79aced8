/** The parser for the table `kubectl api-resources` prints (pkg/cluster/kube/resources.go):
    column boundaries come from the header line, each row is cut at those boundaries. */
module ApiResources {
  import opened Wrappers
  import opened GoStrings
  import opened Decimal

  /** One row of the table. */
  datatype ApiResource = ApiResource(
    name: string,
    shortNames: seq<string>,
    apiVersion: string,
    namespaced: bool,
    kind: string)

  /** A column starts where a non-blank character follows a blank, or opens the line. */
  predicate IsColumnStart(header: string, i: nat)
    requires i < |header|
  {
    header[i] != ' ' && (i == 0 || header[i - 1] == ' ')
  }

  predicate StrictlyIncreasing(xs: seq<nat>) {
    forall i, j :: 0 <= i < j < |xs| ==> xs[i] < xs[j]
  }

  /** The scan with `prevChar`: the column starts at or after `i`, in order. */
  function StartsFrom(header: string, i: nat): (starts: seq<nat>)
    requires i <= |header|
    ensures StrictlyIncreasing(starts)
    ensures forall k :: 0 <= k < |starts| ==> i <= starts[k] < |header|
    ensures forall k :: i <= k < |header| ==> (IsColumnStart(header, k) <==> k in starts)
    decreases |header| - i
  {
    if i == |header| then []
    else
      var rest := StartsFrom(header, i + 1);
      if IsColumnStart(header, i) then [i] + rest else rest
  }

  /** The positions where the header's columns begin. */
  function ColumnStarts(header: string): (starts: seq<nat>)
    ensures StrictlyIncreasing(starts)
    ensures forall k :: 0 <= k < |starts| ==> starts[k] < |header|
    ensures forall k :: 0 <= k < |header| ==> (IsColumnStart(header, k) <==> k in starts)
  {
    StartsFrom(header, 0)
  }

  /** Where cell `k` of a row ends: at the next column's start, or at the row's end. */
  function CellEnd(row: string, starts: seq<nat>, k: nat): nat
    requires k < |starts|
  {
    if k < |starts| - 1 then starts[k + 1] else |row|
  }

  /** Whether column `k` fits in the row; the parser stops at the first that does not. */
  predicate Fits(row: string, starts: seq<nat>, k: nat)
    requires k < |starts|
  {
    CellEnd(row, starts, k) <= |row|
  }

  /** Cell `k` of a row: from the column's start to the cell's end, less trailing blanks. */
  function Cell(row: string, starts: seq<nat>, k: nat): (cell: string)
    requires k < |starts| && starts[k] <= CellEnd(row, starts, k) <= |row|
  {
    TrimRightBlanks(row[starts[k]..CellEnd(row, starts, k)])
  }

  /** `parseRow`'s loop from column `k` on: how many columns fit before the first that
      does not. */
  function FitCount(row: string, starts: seq<nat>, k: nat): (n: nat)
    requires k <= |starts|
    ensures k + n <= |starts|
    ensures forall j :: k <= j < k + n ==> Fits(row, starts, j)
    ensures k + n < |starts| ==> !Fits(row, starts, k + n)
    decreases |starts| - k
  {
    if k == |starts| || !Fits(row, starts, k) then 0 else 1 + FitCount(row, starts, k + 1)
  }

  /** `parseRow`: one cell per column, up to the first column that does not fit in the
      row; the cell of column `j` is the row from the column's start to the next column's
      start (the last runs to the row's end), less trailing blanks. */
  function ParseRow(row: string, starts: seq<nat>): (cells: seq<string>)
    requires StrictlyIncreasing(starts) && |starts| >= 2
    ensures |cells| <= |starts|
    ensures forall j :: 0 <= j < |cells| ==>
      Fits(row, starts, j) && starts[j] <= CellEnd(row, starts, j) && cells[j] == Cell(row, starts, j)
    ensures |cells| < |starts| ==> !Fits(row, starts, |cells|)
  {
    var n := FitCount(row, starts, 0);
    FittingCellsBounded(row, starts);
    seq(n, j requires 0 <= j < n => Cell(row, starts, j))
  }

  /** The columns that fit end within the row and no earlier than they start. */
  lemma FittingCellsBounded(row: string, starts: seq<nat>)
    requires StrictlyIncreasing(starts) && |starts| >= 2
    ensures forall j :: 0 <= j < FitCount(row, starts, 0) ==> starts[j] <= CellEnd(row, starts, j) <= |row|
  {
    var n := FitCount(row, starts, 0);
    forall j | 0 <= j < n ensures starts[j] <= CellEnd(row, starts, j) <= |row| {
      assert Fits(row, starts, j);
      if j < |starts| - 1 {
        assert starts[j] < starts[j + 1];
      } else {
        assert Fits(row, starts, j - 1);
      }
    }
  }

  /** The SHORTNAMES cell: none when empty, otherwise the comma-separated names. */
  function ShortNames(cell: string): (names: seq<string>)
    ensures |cell| == 0 <==> |names| == 0
    ensures |cell| > 0 ==> Join(names, ',') == cell && forall i :: 0 <= i < |names| ==> ',' !in names[i]
  {
    if |cell| > 0 then Split(cell, ',') else []
  }

  /** The resource a row of five or more cells describes. */
  function RowResource(cells: seq<string>): (r: ApiResource)
    requires |cells| >= 5
    ensures r.name == cells[0] && r.apiVersion == cells[2] && r.kind == cells[4]
    ensures r.namespaced <==> cells[3] == "true"
    ensures r.shortNames == ShortNames(cells[1])
  {
    ApiResource(cells[0], ShortNames(cells[1]), cells[2], cells[3] == "true", cells[4])
  }

  /** The rows after the header, each trimmed of blanks at both ends as the loop does
      before looking at it. */
  function TrimRows(rows: seq<string>): (trimmed: seq<string>)
    ensures |trimmed| == |rows| && forall i :: 0 <= i < |rows| ==> trimmed[i] == TrimBlanks(rows[i])
  {
    seq(|rows|, i requires 0 <= i < |rows| => TrimBlanks(rows[i]))
  }

  /** The trimmed rows that are not empty, in order. */
  function ContentRows(rows: seq<string>): (kept: seq<string>)
    ensures |kept| <= |rows|
    ensures forall i :: 0 <= i < |kept| ==> |kept[i]| > 0
  {
    if |rows| == 0 then []
    else if |rows[0]| == 0 then ContentRows(rows[1..])
    else [rows[0]] + ContentRows(rows[1..])
  }

  /** A trimmed row the loop accepts: it yields at least five cells. */
  predicate WellFormedRow(row: string, cellsOf: string -> seq<string>) {
    |cellsOf(row)| >= 5
  }

  /** Every row of `kept` yields at least five cells. */
  predicate AllWellFormed(kept: seq<string>, cellsOf: string -> seq<string>) {
    forall i :: 0 <= i < |kept| ==> WellFormedRow(kept[i], cellsOf)
  }

  /** The loop over the trimmed rows after the header, with `parseRow` as `cellsOf`: empty
      rows are skipped, the first row with fewer than five cells is an error naming it and
      its cell count, and each other row gives a resource. */
  function ParseRows(rows: seq<string>, cellsOf: string -> seq<string>): Result<seq<ApiResource>, string>
  {
    if |rows| == 0 then Ok([])
    else if |rows[0]| == 0 then ParseRows(rows[1..], cellsOf)
    else
      var cells := cellsOf(rows[0]);
      if |cells| < 5 then
        Err("Unexpected number of columns in row " + rows[0] + "; expected 5, got " + IntToString(|cells|))
      else
        match ParseRows(rows[1..], cellsOf)
        case Err(e) => Err(e)
        case Ok(rest) => Ok([RowResource(cells)] + rest)
  }

  /** Every failure of the loop is the short-row error. */
  lemma {:induction false} ParseRowsError(rows: seq<string>, cellsOf: string -> seq<string>)
    ensures ParseRows(rows, cellsOf).Err? ==>
      HasPrefix(ParseRows(rows, cellsOf).error, "Unexpected number of columns in row ")
    decreases |rows|
  {
    if |rows| > 0 {
      ParseRowsError(rows[1..], cellsOf);
      var cells := cellsOf(rows[0]);
      if |rows[0]| > 0 && |cells| < 5 {
        var prefix := "Unexpected number of columns in row ";
        var e := prefix + rows[0] + "; expected 5, got " + IntToString(|cells|);
        assert e[..|prefix|] == prefix;
      }
    }
  }

  /** The rows are parsed in full exactly when every row with content is well formed; the
      resources are then those rows' resources, in the rows' order. */
  lemma {:induction false} ParseRowsContent(rows: seq<string>, cellsOf: string -> seq<string>)
    ensures ParseRows(rows, cellsOf).Ok? <==> AllWellFormed(ContentRows(rows), cellsOf)
    ensures ParseRows(rows, cellsOf).Ok? ==> |ParseRows(rows, cellsOf).value| == |ContentRows(rows)|
    ensures ParseRows(rows, cellsOf).Ok? ==> forall i :: 0 <= i < |ContentRows(rows)| ==>
      ParseRows(rows, cellsOf).value[i] == RowResource(cellsOf(ContentRows(rows)[i]))
    decreases |rows|
  {
    if |rows| > 0 {
      ParseRowsContent(rows[1..], cellsOf);
      var r, r' := ParseRows(rows, cellsOf), ParseRows(rows[1..], cellsOf);
      var kept, kept' := ContentRows(rows), ContentRows(rows[1..]);
      if |rows[0]| == 0 {
        assert r == r' && kept == kept';
      } else {
        ParseRowsContentStep(rows, cellsOf);
      }
    }
  }

  /** The step of `ParseRowsContent` for a row with content, given the statement for the
      rows after it. */
  lemma ParseRowsContentStep(rows: seq<string>, cellsOf: string -> seq<string>)
    requires |rows| > 0 && |rows[0]| > 0
    requires ParseRows(rows[1..], cellsOf).Ok? <==> AllWellFormed(ContentRows(rows[1..]), cellsOf)
    requires ParseRows(rows[1..], cellsOf).Ok? ==> |ParseRows(rows[1..], cellsOf).value| == |ContentRows(rows[1..])|
    requires ParseRows(rows[1..], cellsOf).Ok? ==> forall i :: 0 <= i < |ContentRows(rows[1..])| ==>
      ParseRows(rows[1..], cellsOf).value[i] == RowResource(cellsOf(ContentRows(rows[1..])[i]))
    ensures ParseRows(rows, cellsOf).Ok? <==> AllWellFormed(ContentRows(rows), cellsOf)
    ensures ParseRows(rows, cellsOf).Ok? ==> |ParseRows(rows, cellsOf).value| == |ContentRows(rows)|
    ensures ParseRows(rows, cellsOf).Ok? ==> forall i :: 0 <= i < |ContentRows(rows)| ==>
      ParseRows(rows, cellsOf).value[i] == RowResource(cellsOf(ContentRows(rows)[i]))
  {
    var kept, kept' := ContentRows(rows), ContentRows(rows[1..]);
    assert kept == [rows[0]] + kept';
    if WellFormedRow(rows[0], cellsOf) && ParseRows(rows[1..], cellsOf).Ok? {
      ConsParsed([rows[0]] + kept', RowResource(cellsOf(rows[0])), ParseRows(rows[1..], cellsOf).value, cellsOf);
    } else if !WellFormedRow(rows[0], cellsOf) {
      assert !WellFormedRow(kept[0], cellsOf);
    } else {
      var i :| 0 <= i < |kept'| && !WellFormedRow(kept'[i], cellsOf);
      assert kept[i + 1] == kept'[i];
    }
  }

  /** Putting a well-formed row's resource in front of the resources of the rows after it. */
  lemma ConsParsed(kept: seq<string>, head: ApiResource, rest: seq<ApiResource>, cellsOf: string -> seq<string>)
    requires |kept| == |rest| + 1 && WellFormedRow(kept[0], cellsOf) && head == RowResource(cellsOf(kept[0]))
    requires AllWellFormed(kept[1..], cellsOf)
    requires forall i :: 0 <= i < |rest| ==> rest[i] == RowResource(cellsOf(kept[1..][i]))
    ensures AllWellFormed(kept, cellsOf)
    ensures forall i :: 0 <= i < |kept| ==> ([head] + rest)[i] == RowResource(cellsOf(kept[i]))
  {
    forall i | 0 < i < |kept|
      ensures WellFormedRow(kept[i], cellsOf) && ([head] + rest)[i] == RowResource(cellsOf(kept[i]))
    {
      assert kept[i] == kept[1..][i - 1];
    }
  }

  /** `parseResourcesTable`: the header of the trimmed text fixes the columns, which must
      number five, or the table is refused with their count; then the later rows are
      parsed. (`strings.Split` never yields an empty list, so the source's "No
      api-resources found" branch cannot be taken.) */
  function ParseResourcesTable(raw: string): (r: Result<seq<ApiResource>, string>)
    ensures var starts := ColumnStarts(Split(TrimSpace(raw), '\n')[0]);
      && (|starts| != 5 ==> r == Err("Unexpected number of columns; expected 5, got " + IntToString(|starts|)))
      && (r.Ok? ==> |starts| == 5)
  {
    var rows := Split(TrimSpace(raw), '\n');
    var starts := ColumnStarts(rows[0]);
    if |starts| != 5 then
      Err("Unexpected number of columns; expected 5, got " + IntToString(|starts|))
    else
      ParseRows(TrimRows(rows[1..]), RowCells(starts))
  }

  /** `parseRow` with the header's columns. */
  function RowCells(starts: seq<nat>): string -> seq<string>
    requires StrictlyIncreasing(starts) && |starts| >= 2
  {
    row => ParseRow(row, starts)
  }

  /** The table parses exactly when its header has five columns and every row with content
      has five cells; the resources are then those rows', in order. */
  lemma TableContent(raw: string)
    ensures var rows := Split(TrimSpace(raw), '\n'); var starts := ColumnStarts(rows[0]);
      var kept := ContentRows(TrimRows(rows[1..])); var r := ParseResourcesTable(raw);
      && (r.Ok? <==> |starts| == 5 && forall i :: 0 <= i < |kept| ==> |ParseRow(kept[i], starts)| >= 5)
      && (r.Ok? ==> |r.value| == |kept| && forall i :: 0 <= i < |kept| ==>
            r.value[i] == RowResource(ParseRow(kept[i], starts)))
  {
    var rows := Split(TrimSpace(raw), '\n');
    var starts := ColumnStarts(rows[0]);
    if |starts| == 5 {
      var cellsOf := RowCells(starts);
      var trimmed := TrimRows(rows[1..]);
      assert ParseResourcesTable(raw) == ParseRows(trimmed, cellsOf);
      ParseRowsContent(trimmed, cellsOf);
      assert forall i :: 0 <= i < |ContentRows(trimmed)| ==>
        cellsOf(ContentRows(trimmed)[i]) == ParseRow(ContentRows(trimmed)[i], starts);
    }
  }

  /** The source's malformed-input example: "bad input" has two columns, not five. */
  lemma BadInputRefused(raw: string)
    requires raw == "bad input"
    ensures ParseResourcesTable(raw) == Err("Unexpected number of columns; expected 5, got 2")
  {
    TrimSpaceUnchanged(raw);
    assert '\n' !in raw;
    assert IndexOf(raw, '\n') == -1;
    assert Split(raw, '\n') == [raw];
    assert StartsFrom(raw, 9) == [];
    assert StartsFrom(raw, 8) == [];
    assert StartsFrom(raw, 7) == [];
    assert StartsFrom(raw, 6) == [];
    assert StartsFrom(raw, 5) == [];
    assert StartsFrom(raw, 4) == [4];
    assert StartsFrom(raw, 3) == [4];
    assert StartsFrom(raw, 2) == [4];
    assert StartsFrom(raw, 1) == [4];
    assert StartsFrom(raw, 0) == [0, 4];
    assert ColumnStarts(Split(TrimSpace(raw), '\n')[0]) == [0, 4];
    assert IntToString(2) == "2";
    assert "Unexpected number of columns; expected 5, got " + "2" == "Unexpected number of columns; expected 5, got 2";
  }

  /** The SHORTNAMES cells of the source's example table. */
  lemma ShortNamesExamples(one: string, two: string)
    requires one == "cs" && two == "cm,cmx"
    ensures ShortNames("") == [] && ShortNames(one) == ["cs"] && ShortNames(two) == ["cm", "cmx"]
  {
    assert IndexOf(one, ',') == -1;
    assert Split(one, ',') == [one];
    assert IndexOf(two, ',') == 2;
    var tail := two[3..];
    assert tail == "cmx" && IndexOf(tail, ',') == -1;
    assert Split(tail, ',') == [tail];
    assert Split(two, ',') == [two[..2]] + Split(tail, ',');
    assert two[..2] == "cm";
  }

  /** Text with no white space at either end is its own `TrimSpace`. */
  lemma TrimSpaceUnchanged(s: string)
    requires |s| > 0 && !IsSpace(s[0]) && !IsSpace(s[|s| - 1])
    ensures TrimSpace(s) == s
  {
    assert TrimLeftFunc(s, IsSpace) == s;
  }
}
