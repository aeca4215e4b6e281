/** The expense log as the csv module reads it back: a sequence of rows, each
    a sequence of text fields, the first of them the header. This module holds
    the value-level meaning of the tracker's operations (what an append, a
    load, a delete and a monthly total produce from given rows) and the
    properties proved about them; module Tracker runs the operations
    themselves against this meaning. */
module ExpenseRows {

  import opened Calendar

  type Row = seq<string>

  /** The header row written at the top of an empty file. */
  const Header: Row := ["Amount", "Category", "Description", "Date"]

  /** The Python exceptions the core can raise. */
  datatype Fault = FileNotFoundError | IndexError | ValueError | OverflowError

  datatype Result<T> = Ok(value: T) | Err(fault: Fault)

  /** What the form holds when "Add Expense" is pressed. */
  datatype Form = Form(amount: string, category: string, description: string, date: string)

  /** The row written for one expense, in header column order. */
  function Record(f: Form): (r: Row)
    ensures |r| == |Header|
  {
    [f.amount, f.category, f.description, f.date]
  }

  /** The input check of `add_expense`: amount and category must be non-empty. */
  predicate Accepts(f: Form)
  {
    f.amount != "" && f.category != ""
  }

  // ---------------------------------------------------------------------------
  // Append and load

  /** The rows after `record` is appended: the header first when the file is
      empty, then the record as the new last row. */
  function Appended(rows: seq<Row>, record: Row): seq<Row>
  {
    if rows == [] then [Header, record] else rows + [record]
  }

  /** One submission of the form: a rejected one leaves the rows as they are. */
  function Added(rows: seq<Row>, f: Form): seq<Row>
  {
    if Accepts(f) then Appended(rows, Record(f)) else rows
  }

  /** The rows after the records are appended one after the other. */
  function AppendedAll(rows: seq<Row>, records: seq<Row>): seq<Row>
    decreases |records|
  {
    if records == [] then rows
    else Appended(AppendedAll(rows, records[..|records| - 1]), records[|records| - 1])
  }

  /** What loading returns: every row after the first, in file order. */
  function DataRows(rows: seq<Row>): seq<Row>
  {
    if rows == [] then [] else rows[1..]
  }

  /** A rejected submission changes nothing. */
  lemma RejectedAddKeepsRows(rows: seq<Row>, f: Form)
    requires f.amount == "" || f.category == ""
    ensures Added(rows, f) == rows
  {
  }

  /** An append keeps every row already there, puts the record last, and
      starts with the header exactly when the file was empty. Nothing is
      checked for uniqueness: the record may already be present. */
  lemma AppendKeepsRows(rows: seq<Row>, record: Row)
    ensures |Appended(rows, record)| == (if rows == [] then 2 else |rows| + 1)
    ensures Appended(rows, record)[|Appended(rows, record)| - 1] == record
    ensures rows == [] ==> Appended(rows, record)[0] == Header
    ensures forall i :: 0 <= i < |rows| ==> Appended(rows, record)[i] == rows[i]
    ensures DataRows(Appended(rows, record)) == DataRows(rows) + [record]
  {
  }

  /** Appending records to a file that already has rows only extends it. */
  lemma {:induction false} AppendedAllExtends(rows: seq<Row>, records: seq<Row>)
    requires rows != []
    ensures AppendedAll(rows, records) == rows + records
    decreases |records|
  {
    if records != [] {
      var init := records[..|records| - 1];
      AppendedAllExtends(rows, init);
      assert init + [records[|records| - 1]] == records;
    }
  }

  /** Appending records to an empty (or missing) file gives the header
      followed by exactly those records, in order. */
  lemma {:induction false} AppendedAllFromEmpty(records: seq<Row>)
    ensures AppendedAll([], records) == if records == [] then [] else [Header] + records
    decreases |records|
  {
    if records != [] {
      var init, last := records[..|records| - 1], records[|records| - 1];
      AppendedAllFromEmpty(init);
      assert init + [last] == records;
    }
  }

  /** Round trip: appending records to an empty file and loading it gives
      back exactly those records, in order. */
  lemma LoadAfterAppends(records: seq<Row>)
    ensures DataRows(AppendedAll([], records)) == records
  {
    AppendedAllFromEmpty(records);
  }

  /** Submissions applied one after the other. */
  function AddedAll(rows: seq<Row>, forms: seq<Form>): seq<Row>
    decreases |forms|
  {
    if forms == [] then rows
    else Added(AddedAll(rows, forms[..|forms| - 1]), forms[|forms| - 1])
  }

  /** The records of the submissions that pass the input check, in order. */
  function AcceptedRecords(forms: seq<Form>): seq<Row>
    decreases |forms|
  {
    if forms == [] then []
    else
      var f := forms[|forms| - 1];
      AcceptedRecords(forms[..|forms| - 1]) + (if Accepts(f) then [Record(f)] else [])
  }

  /** Round trip through the input check: after a series of submissions to an
      empty file, the file is the header followed by exactly the accepted
      records in submission order (no file content at all if none was). */
  lemma {:induction false} LoadAfterSubmissions(forms: seq<Form>)
    ensures AddedAll([], forms) == if AcceptedRecords(forms) == [] then [] else [Header] + AcceptedRecords(forms)
    ensures DataRows(AddedAll([], forms)) == AcceptedRecords(forms)
    decreases |forms|
  {
    if forms != [] {
      LoadAfterSubmissions(forms[..|forms| - 1]);
    }
  }

  // ---------------------------------------------------------------------------
  // Delete by value

  /** The data rows that equal none of the rows to delete, in their order. */
  function Survivors(data: seq<Row>, doomed: seq<Row>): seq<Row>
  {
    if data == [] then []
    else (if data[0] in doomed then [] else [data[0]]) + Survivors(data[1..], doomed)
  }

  /** Filtering distributes over concatenation, so the relative order of
      what is kept is the original one. */
  lemma {:induction false} SurvivorsConcat(a: seq<Row>, b: seq<Row>, doomed: seq<Row>)
    ensures Survivors(a + b, doomed) == Survivors(a, doomed) + Survivors(b, doomed)
    decreases |a|
  {
    if a != [] {
      assert (a + b)[1..] == a[1..] + b;
      SurvivorsConcat(a[1..], b, doomed);
    } else {
      assert a + b == b;
    }
  }

  /** Exactly the rows equal to no deleted row survive, each as often as it
      was there; every copy of a deleted row goes. */
  lemma {:induction false} SurvivorsCount(data: seq<Row>, doomed: seq<Row>, r: Row)
    ensures multiset(Survivors(data, doomed))[r] == if r in doomed then 0 else multiset(data)[r]
    ensures r in Survivors(data, doomed) <==> r in data && r !in doomed
    decreases |data|
  {
    if data != [] {
      SurvivorsCount(data[1..], doomed, r);
      assert data == [data[0]] + data[1..];
    }
  }

  /** Deleting rows none of which is present keeps the data as it is. */
  lemma {:induction false} SurvivorsNoneDoomed(data: seq<Row>, doomed: seq<Row>)
    requires forall r :: r in data ==> r !in doomed
    ensures Survivors(data, doomed) == data
    decreases |data|
  {
    if data != [] {
      assert forall r :: r in data[1..] ==> r in data;
      SurvivorsNoneDoomed(data[1..], doomed);
      assert data == [data[0]] + data[1..];
    }
  }

  /** Deleting the same rows twice gives what deleting them once gives. */
  lemma SurvivorsIdempotent(data: seq<Row>, doomed: seq<Row>)
    ensures Survivors(Survivors(data, doomed), doomed) == Survivors(data, doomed)
  {
    forall r | r in Survivors(data, doomed)
      ensures r !in doomed
    {
      SurvivorsCount(data, doomed, r);
    }
    SurvivorsNoneDoomed(Survivors(data, doomed), doomed);
  }

  /** The file after a delete: the first row as it was, then the survivors.
      A file without rows has no first row to keep (IndexError). */
  function Rewritten(rows: seq<Row>, doomed: seq<Row>): (r: Result<seq<Row>>)
    ensures r.Err? <==> rows == []
    ensures r.Err? ==> r.fault == IndexError
    ensures r.Ok? ==> r.value != [] && r.value[0] == rows[0] && DataRows(r.value) == Survivors(DataRows(rows), doomed)
  {
    if rows == [] then Err(IndexError) else Ok([rows[0]] + Survivors(rows[1..], doomed))
  }

  /** Deleting rows that are not in the file leaves the file unchanged. */
  lemma RewriteAbsentKeepsFile(rows: seq<Row>, doomed: seq<Row>)
    requires rows != []
    requires forall r :: r in DataRows(rows) ==> r !in doomed
    ensures Rewritten(rows, doomed) == Ok(rows)
  {
    SurvivorsNoneDoomed(rows[1..], doomed);
    assert [rows[0]] + rows[1..] == rows;
  }

  /** Deleting a set of rows twice has the effect of deleting it once. */
  lemma RewriteIdempotent(rows: seq<Row>, doomed: seq<Row>)
    requires rows != []
    ensures Rewritten(Rewritten(rows, doomed).value, doomed) == Rewritten(rows, doomed)
  {
    SurvivorsIdempotent(rows[1..], doomed);
  }

  /** Delete undoes append: deleting a freshly appended record that was not
      in the file before gives back the file as it was (a file that was empty
      keeps the header the append wrote). */
  lemma DeleteUndoesAppend(rows: seq<Row>, record: Row)
    requires record !in DataRows(rows)
    ensures Rewritten(Appended(rows, record), [record]) == Ok(if rows == [] then [Header] else rows)
  {
    var after := Appended(rows, record);
    assert DataRows(after) == DataRows(rows) + [record];
    SurvivorsConcat(DataRows(rows), [record], [record]);
    assert Survivors([record], [record]) == [] + Survivors([record][1..], [record]);
    assert [record][1..] == [];
    SurvivorsNoneDoomed(DataRows(rows), [record]);
    assert Survivors(DataRows(after), [record]) == DataRows(rows);
    if rows != [] {
      assert after[0] == rows[0] && after[1..] == DataRows(after);
      assert [rows[0]] + rows[1..] == rows;
    } else {
      assert after[0] == Header && after[1..] == DataRows(after);
      assert [Header] + DataRows(rows) == [Header];
    }
  }

  /** Deleting the only record of a file, or a record present twice, leaves
      the header alone: both copies of a duplicate go together. */
  lemma DeleteOnlyRecord(record: Row)
    ensures Rewritten(Appended([], record), [record]) == Ok([Header])
    ensures Rewritten(Appended(Appended([], record), record), [record]) == Ok([Header])
  {
    var one, two := Appended([], record), Appended(Appended([], record), record);
    assert one == [Header, record] && one[1..] == [record];
    assert two == [Header, record, record] && two[1..] == [record, record];
    assert Survivors([record], [record]) == [] + Survivors([record][1..], [record]);
    assert [record][1..] == [];
    assert Survivors([record, record], [record]) == [] + Survivors([record, record][1..], [record]);
    assert [record, record][1..] == [record];
    assert [one[0]] + [] == [Header];
  }

  // ---------------------------------------------------------------------------
  // Monthly total

  /** Python's `str.startswith`. */
  predicate StartsWith(s: string, prefix: string)
  {
    |prefix| <= |s| && s[..|prefix|] == prefix
  }

  /** Does the row have a date field that starts with the month's "YYYY-MM" text? */
  predicate InMonth(row: Row, month: string)
  {
    |row| >= 4 && StartsWith(row[3], month)
  }

  /** The running total over data rows, row by row as the scan meets them:
      a row without a date field raises IndexError, a matching row whose
      amount does not parse raises ValueError, the first fault ends the scan. */
  function MonthTotal(data: seq<Row>, month: string, parse: string -> Option<real>): Result<real>
    decreases |data|
  {
    if data == [] then Ok(0.0)
    else
      var row := data[|data| - 1];
      match MonthTotal(data[..|data| - 1], month, parse)
      case Err(f) => Err(f)
      case Ok(t) =>
        if |row| < 4 then Err(IndexError)
        else if !InMonth(row, month) then Ok(t)
        else match parse(row[0])
          case None => Err(ValueError)
          case Some(v) => Ok(t + v)
  }

  /** The first fault ends the scan: once a prefix of the rows fails, the
      whole scan fails with the same fault. */
  lemma {:induction false} MonthTotalFaultSticks(data: seq<Row>, k: nat, month: string, parse: string -> Option<real>)
    requires k <= |data| && MonthTotal(data[..k], month, parse).Err?
    ensures MonthTotal(data, month, parse) == MonthTotal(data[..k], month, parse)
    decreases |data| - k
  {
    if k < |data| {
      assert data[..k + 1][..k] == data[..k];
      MonthTotalFaultSticks(data, k + 1, month, parse);
    } else {
      assert data[..k] == data;
    }
  }

  /** The rows of the month, in order (the reference selection). */
  function InMonthRows(data: seq<Row>, month: string): seq<Row>
    decreases |data|
  {
    if data == [] then []
    else (if InMonth(data[0], month) then [data[0]] else []) + InMonthRows(data[1..], month)
  }

  /** The sum of the rows' amounts (first fields), or None when one does not parse. */
  function SumOfAmounts(rows: seq<Row>, parse: string -> Option<real>): Option<real>
    decreases |rows|
  {
    if rows == [] then Some(0.0)
    else if rows[0] == [] then None
    else AddAmounts(parse(rows[0][0]), SumOfAmounts(rows[1..], parse))
  }

  /** The sum of two amounts, None when either is missing. */
  function AddAmounts(a: Option<real>, b: Option<real>): (r: Option<real>)
    ensures r.Some? <==> a.Some? && b.Some?
    ensures r.Some? ==> r.value == a.value + b.value
  {
    if a.Some? && b.Some? then Some(a.value + b.value) else None
  }

  lemma {:induction false} SumOfAmountsSnoc(rows: seq<Row>, row: Row, parse: string -> Option<real>)
    requires row != []
    ensures SumOfAmounts(rows + [row], parse) == AddAmounts(SumOfAmounts(rows, parse), parse(row[0]))
    decreases |rows|
  {
    if rows != [] {
      assert (rows + [row])[1..] == rows[1..] + [row];
      SumOfAmountsSnoc(rows[1..], row, parse);
    } else {
      assert [row][1..] == rows;
    }
  }

  lemma {:induction false} InMonthRowsSnoc(data: seq<Row>, row: Row, month: string)
    ensures InMonthRows(data + [row], month) ==
      InMonthRows(data, month) + (if InMonth(row, month) then [row] else [])
    decreases |data|
  {
    if data != [] {
      assert (data + [row])[1..] == data[1..] + [row];
      InMonthRowsSnoc(data[1..], row, month);
    } else {
      assert [row][1..] == data;
    }
  }

  /** On rows that all have a date field, the scan's total is the sum of the
      amounts of exactly the rows whose date starts with the month, and it
      fails with ValueError exactly when one of those amounts does not parse. */
  lemma {:induction false} MonthTotalIsSumOfMonthRows(data: seq<Row>, month: string, parse: string -> Option<real>)
    requires forall i :: 0 <= i < |data| ==> |data[i]| >= 4
    ensures SumOfAmounts(InMonthRows(data, month), parse).Some? ==>
      MonthTotal(data, month, parse) == Ok(SumOfAmounts(InMonthRows(data, month), parse).value)
    ensures SumOfAmounts(InMonthRows(data, month), parse).None? ==>
      MonthTotal(data, month, parse) == Err(ValueError)
    decreases |data|
  {
    if data != [] {
      var init, row := data[..|data| - 1], data[|data| - 1];
      assert data == init + [row];
      MonthTotalIsSumOfMonthRows(init, month, parse);
      InMonthRowsSnoc(init, row, month);
      if InMonth(row, month) {
        SumOfAmountsSnoc(InMonthRows(init, month), row, parse);
      } else {
        assert InMonthRows(init, month) + [] == InMonthRows(init, month);
      }
    }
  }

  /** A total only comes out when every scanned row has a date field. */
  lemma {:induction false} MonthTotalOkMeansWellFormed(data: seq<Row>, month: string, parse: string -> Option<real>)
    requires MonthTotal(data, month, parse).Ok?
    ensures forall i :: 0 <= i < |data| ==> |data[i]| >= 4
    decreases |data|
  {
    if data != [] {
      MonthTotalOkMeansWellFormed(data[..|data| - 1], month, parse);
    }
  }

  /** A row of another month, wherever it stands, never changes the total. */
  lemma {:induction false} OtherMonthRowIgnored(before: seq<Row>, row: Row, after: seq<Row>, month: string, parse: string -> Option<real>)
    requires |row| >= 4 && !InMonth(row, month)
    ensures MonthTotal(before + [row] + after, month, parse) == MonthTotal(before + after, month, parse)
    decreases |after|
  {
    if after == [] {
      assert (before + [row] + after)[..|before| + 1 - 1] == before;
      assert before + after == before;
    } else {
      var init := after[..|after| - 1];
      OtherMonthRowIgnored(before, row, init, month, parse);
      assert (before + [row] + after)[..|before + [row] + after| - 1] == before + [row] + init;
      assert (before + after)[..|before + after| - 1] == before + init;
    }
  }

  /** The worked total: two May rows of 10.50 and 5 and a June row of 3 give
      15.50 for "2024-05", the header row aside. */
  lemma MonthTotalExample(parse: string -> Option<real>)
    requires parse("10.50") == Some(10.5) && parse("5") == Some(5.0) && parse("3") == Some(3.0)
    ensures MonthTotal(DataRows([Header,
                                 Record(Form("10.50", "Food", "", "2024-05-01")),
                                 Record(Form("5", "Bills", "", "2024-05-31")),
                                 Record(Form("3", "Food", "", "2024-06-01"))]), "2024-05", parse)
            == Ok(15.5)
  {
    var data := [Record(Form("10.50", "Food", "", "2024-05-01")),
                 Record(Form("5", "Bills", "", "2024-05-31")),
                 Record(Form("3", "Food", "", "2024-06-01"))];
    assert data[..2][..1] == [data[0]];
    assert data[..2] == [data[0], data[1]];
    assert data[..1][..0] == [];
    assert InMonth(data[0], "2024-05");
    assert InMonth(data[1], "2024-05");
    assert data[2][3][..7][6] != "2024-05"[6];
    assert MonthTotal(data[..1], "2024-05", parse) == Ok(0.0 + 10.5);
    assert MonthTotal(data[..2], "2024-05", parse) == Ok(10.5 + 5.0);
    assert data[..3] == data;
    assert MonthTotal(data, "2024-05", parse) == Ok(15.5);
  }
}
