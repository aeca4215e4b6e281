/** The expense tracker's operations on its file "expenses.csv", run step by
    step as the application runs them: the input-checked append, the load
    that skips the header, the delete that filters and rewrites the file, and
    the month-end total. Widgets, dialogs and the clock are not modelled:
    the form's contents, the rows selected in the table, today's date and its
    "YYYY-MM" text come in as parameters, and what the application would show
    in a dialog comes back as a result. */
module Tracker {

  import opened Calendar
  import opened ExpenseRows

  /** What "Delete Selected" ends with. */
  datatype DeleteOutcome = NothingSelected | Deleted | DeleteFailed(fault: Fault)

  /** What the month-end check ends with: nothing to announce, the total to
      announce for the month, or the exception the scan raised. */
  datatype MonthReport = NotMonthEnd | Announce(month: string, total: real) | ReportFailed(fault: Fault)

  /** The file "expenses.csv": whether it exists, and the rows it holds as
      the csv module reads them back (the first one the header). */
  class ExpenseLog {
    var present: bool
    var rows: seq<Row>

    /** A missing file has no rows. */
    ghost predicate Valid()
      reads this
    {
      present || rows == []
    }

    /** The file as the application finds it at start-up. */
    constructor (present: bool, rows: seq<Row>)
      requires present || rows == []
      ensures Valid() && this.present == present && this.rows == rows
    {
      this.present := present;
      this.rows := rows;
    }

    /** "Add Expense": rejects a form without amount or category and leaves
        the file alone; otherwise opens the file for appending (creating it),
        writes the header if the file is empty, then the record. */
    method AddExpense(form: Form) returns (added: bool)
      requires Valid()
      modifies this
      ensures Valid()
      ensures added <==> Accepts(form)
      ensures present == (old(present) || added)
      ensures rows == Added(old(rows), form)
      ensures added ==> rows == Appended(old(rows), Record(form))
    {
      if form.amount == "" || form.category == "" {
        return false;
      }
      present := true;
      if |rows| == 0 {
        rows := rows + [Header];
      }
      rows := rows + [Record(form)];
      added := true;
    }

    /** Loading the table: nothing for a missing file, otherwise every row
        after the first, in file order. */
    method LoadExpenses() returns (loaded: seq<Row>)
      requires Valid()
      ensures loaded == DataRows(rows)
      ensures forall r :: r in loaded ==> r in rows
    {
      loaded := [];
      if !present {
        return;
      }
      var i := 0;
      if i < |rows| {
        i := 1;  // the header is skipped
      }
      while i < |rows|
        invariant i <= |rows| && (rows != [] ==> 1 <= i)
        invariant rows != [] ==> loaded == rows[1..i]
        invariant rows == [] ==> loaded == []
      {
        loaded := loaded + [rows[i]];
        i := i + 1;
      }
    }

    /** "Delete Selected": with rows selected, reads the file, keeps the first
        row, keeps every data row equal to no selected row, and rewrites the
        file with the first row followed by those. Reading a missing file
        raises FileNotFoundError, an empty one IndexError; either leaves the
        file as it was. */
    method DeleteExpense(selected: seq<Row>) returns (outcome: DeleteOutcome)
      requires Valid()
      modifies this
      ensures Valid() && present == old(present)
      ensures selected == [] ==> outcome == NothingSelected && rows == old(rows)
      ensures selected != [] && !old(present) ==> outcome == DeleteFailed(FileNotFoundError) && rows == old(rows)
      ensures selected != [] && old(present) && Rewritten(old(rows), selected).Err? ==>
        outcome == DeleteFailed(Rewritten(old(rows), selected).fault) && rows == old(rows)
      ensures selected != [] && old(present) && Rewritten(old(rows), selected).Ok? ==>
        outcome == Deleted && rows == Rewritten(old(rows), selected).value
    {
      if selected == [] {
        return NothingSelected;
      }
      if !present {
        return DeleteFailed(FileNotFoundError);
      }
      if |rows| == 0 {
        return DeleteFailed(IndexError);
      }
      var header, data := rows[0], rows[1..];
      var kept: seq<Row> := [];
      var i := 0;
      while i < |data|
        invariant i <= |data|
        invariant kept == Survivors(data[..i], selected)
        invariant unchanged(this)
      {
        SurvivorsConcat(data[..i], [data[i]], selected);
        assert data[..i + 1] == data[..i] + [data[i]];
        assert [data[i]][1..] == [];
        if data[i] !in selected {
          kept := kept + [data[i]];
        }
        i := i + 1;
      }
      assert data[..i] == data;
      rows := [header] + kept;
      outcome := Deleted;
    }

    /** The month-end check: on the last day of a month, the sum of the
        amounts of the data rows dated in `currentMonth` (0 for a missing
        file); on any other day nothing. `currentMonth` is today's "YYYY-MM"
        text and `parse` reads an amount as a number. */
    method CalculateMonthlyTotal(today: Date, currentMonth: string, parse: string -> Option<real>)
      returns (report: MonthReport)
      requires Valid() && ValidDate(today)
      ensures IsLastDayOfMonth(today) == None ==> report == ReportFailed(OverflowError)
      ensures IsLastDayOfMonth(today) == Some(false) ==> report == NotMonthEnd
      ensures IsLastDayOfMonth(today) == Some(true) && MonthTotal(DataRows(rows), currentMonth, parse).Ok? ==>
        report == Announce(currentMonth, MonthTotal(DataRows(rows), currentMonth, parse).value)
      ensures IsLastDayOfMonth(today) == Some(true) && MonthTotal(DataRows(rows), currentMonth, parse).Err? ==>
        report == ReportFailed(MonthTotal(DataRows(rows), currentMonth, parse).fault)
    {
      var last := IsLastDayOfMonth(today);
      if last.None? {
        return ReportFailed(OverflowError);
      }
      if !last.value {
        return NotMonthEnd;
      }
      var total := 0.0;
      if present && rows != [] {
        var i := 1;  // the header is skipped
        while i < |rows|
          invariant 1 <= i <= |rows|
          invariant MonthTotal(rows[1..i], currentMonth, parse) == Ok(total)
        {
          var row := rows[i];
          assert rows[1..i + 1][..i - 1] == rows[1..i];
          assert rows[1..][..i] == rows[1..i + 1];
          if |row| < 4 {
            MonthTotalFaultSticks(rows[1..], i, currentMonth, parse);
            return ReportFailed(IndexError);
          }
          var date, amount := row[3], row[0];
          if StartsWith(date, currentMonth) {
            match parse(amount)
            case None =>
              MonthTotalFaultSticks(rows[1..], i, currentMonth, parse);
              return ReportFailed(ValueError);
            case Some(v) =>
              total := total + v;
          }
          i := i + 1;
        }
        assert rows[1..i] == DataRows(rows);
      }
      report := Announce(currentMonth, total);
    }
  }

  /** A client run: record one expense on a missing file, load it back,
      delete it, and find the header alone in the file. */
  method RecordLoadDeleteScenario()
  {
    var log := new ExpenseLog(false, []);
    var form := Form("12.00", "Food", "", "2024-03-15");
    var added := log.AddExpense(form);
    assert added && log.rows == [Header, Record(form)];
    var loaded := log.LoadExpenses();
    assert loaded == [Record(form)];
    var outcome := log.DeleteExpense(loaded);
    DeleteUndoesAppend([], Record(form));
    assert outcome == Deleted && log.rows == [Header];
    loaded := log.LoadExpenses();
    assert loaded == [];
  }
}
