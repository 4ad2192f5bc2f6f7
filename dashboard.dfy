/** The state of the dashboard across one run of the missing-value section:
    the session holds a reference to a data frame; the script's `df` is a
    second name for the same frame. Fills change that frame in place, while
    the two drop actions store a new frame in the session, so the rest of the
    run still reads the old one through `df`. */
module Dashboard {
  import opened Tables
  import opened MissingAnalysis
  import opened Remediation
  import opened Summary
  import ImputationOutcomes

  /** The run so far: the messages `log` already shown, followed by the run
      `r` over the rest of the selection. */
  function Resume(log: seq<Message>, r: Imputation): (q: Imputation)
    ensures q.table == r.table && |q.log| == |log| + |r.log|
  {
    Imputation(r.table, log + r.log)
  }

  /** One pass of the imputation loop after messages `log`: how the run from
      `sel[0]` on continues, by the step taken on the column named `sel[0]`. */
  lemma {:induction false} ImputeLoopStep(log: seq<Message>, t: Table, how: Imputer, sel: seq<string>, lib: Library)
    requires AllPresent(t, sel) && sel != []
    ensures HasColumn(t, sel[0]) && AllPresent(t, sel[1..])
    ensures var j := IndexOf(t.columns, sel[0]);
      var step := ImputeColumn(t.columns[j], how, lib);
      var now := Resume(log, ImputeLoop(t, how, sel, lib));
      && (step.Filled? ==>
            var t' := Table(t.index, t.columns[j := step.col]);
            AllPresent(t', sel[1..]) && now == Resume(log, ImputeLoop(t', how, sel[1..], lib)))
      && (step.Skipped? ==> now == Resume(log + [step.warning], ImputeLoop(t, how, sel[1..], lib)))
      && (step.Raised? ==> now == Imputation(t, log + [InvalidFillValue] + [ImputationApplied]))
      && (step.Crashed? ==> now == Imputation(t, log + [ModeLookupError(sel[0])]))
  {
    assert sel[0] in sel;
    PresentTail(t, sel);
    BodyKeepsNames(how, lib);
    var j := IndexOf(t.columns, sel[0]);
    var step := ImputeColumn(t.columns[j], how, lib);
    assert BodyOf(how, lib)(t.columns[j]) == step;
    match step
    case Filled(c) =>
      SameNames(t.columns, t.columns[j := c]);
    case Skipped(w) =>
      var r := ImputeLoop(t, how, sel[1..], lib);
      assert log + ([w] + r.log) == log + [w] + r.log;
    case Raised =>
      assert log + [InvalidFillValue, ImputationApplied] == log + [InvalidFillValue] + [ImputationApplied];
    case Crashed =>
  }

  /** A pandas data frame: a row index and columns that a fill replaces in place. */
  class Frame {
    var index: seq<int>
    var columns: seq<Column>

    function Contents(): Table
      reads this
    {
      Table(index, columns)
    }

    constructor (t: Table)
      ensures Contents() == t
    {
      index := t.index;
      columns := t.columns;
    }

    /** The loop of the "Apply Imputation" button: for each selected column in
        turn, read it from this frame as earlier passes left it and decide on it
        with `ImputeColumn`; then write the filled column back into the frame,
        show the warning and go on, `break` after the error message, or stop
        the run on an uncaught error. The success message follows unless the
        run stopped. */
    method Impute(how: Imputer, sel: seq<string>, lib: Library) returns (log: seq<Message>)
      requires AllPresent(Contents(), sel)
      modifies this
      ensures Imputation(Contents(), log) == ImputeLoop(old(Contents()), how, sel, lib)
    {
      ghost var target := ImputeLoop(Contents(), how, sel, lib);
      log := [];
      var i := 0;
      while i < |sel|
        invariant 0 <= i <= |sel|
        invariant AllPresent(Contents(), sel[i..])
        invariant Resume(log, ImputeLoop(Contents(), how, sel[i..], lib)) == target
      {
        var n := sel[i];
        assert sel[i..][0] == n && sel[i..][1..] == sel[i + 1..];
        ImputeLoopStep(log, Contents(), how, sel[i..], lib);
        var j := IndexOf(columns, n);
        match ImputeColumn(columns[j], how, lib) {
          case Filled(c) =>
            columns := columns[j := c];
          case Skipped(w) =>
            log := log + [w];
          case Raised =>
            log := log + [InvalidFillValue];
            break;
          case Crashed =>
            log := log + [ModeLookupError(n)];
            return;
        }
        i := i + 1;
      }
      log := log + [ImputationApplied];
    }
  }

  /** `st.session_state`: the frame the session holds, if a file was uploaded. */
  class Session {
    var df: Frame?

    constructor ()
      ensures df == null
    {
      df := null;
    }

    /** A file was uploaded and read into a new frame. */
    method Upload(t: Table)
      modifies this
      ensures df != null && fresh(df) && df.Contents() == t
    {
      df := new Frame(t);
    }
  }

  /** The choice in the "Select handling method" box. */
  datatype Action = SelectMethod | DropRowsAction | DropColumnsAction | Fill(how: Imputer)

  /** The outcome of one run of the missing-value section: the messages shown,
      then the "Updated Missing Values Summary" and the "Data Summary", both
      absent when an uncaught error ended the run first. */
  datatype RunOutcome = RunOutcome(
    log: seq<Message>, updated: Option<seq<MissingEntry>>, summary: Option<DataSummary>)

  predicate Stopped(log: seq<Message>)
  {
    |log| > 0 && log[|log| - 1].ModeLookupError?
  }

  /** One run of the missing-value section with the session's frame bound to
      `df`: the chosen remediation on the selected columns, then the updated
      report read from the session and the data summary read from `df`. */
  method HandleMissingValues(s: Session, action: Action, sel: seq<string>, pressed: bool, lib: Library)
    returns (out: RunOutcome)
    requires s.df != null && WellFormed(s.df.Contents())
    requires AllPresent(s.df.Contents(), sel) && Distinct(sel)
    modifies s, s.df
    ensures s.df != null && WellFormed(s.df.Contents())
    ensures action.SelectMethod? || sel == [] || !pressed ==>
      s.df == old(s.df) && s.df.Contents() == old(s.df.Contents()) && out.log == []
    ensures action.DropRowsAction? && sel != [] && pressed ==>
      && fresh(s.df) && s.df.Contents() == DropNullRows(old(s.df.Contents()), sel)
      && old(s.df).Contents() == old(s.df.Contents())
      && out.log == [DroppedRows(sel)]
    ensures action.DropColumnsAction? && sel != [] && pressed ==>
      && fresh(s.df) && s.df.Contents() == DropColumns(old(s.df.Contents()), sel)
      && old(s.df).Contents() == old(s.df.Contents())
      && out.log == [DroppedColumns(sel)]
    ensures action.Fill? && sel != [] && pressed ==>
      && s.df == old(s.df)
      && Imputation(s.df.Contents(), out.log) == ImputeLoop(old(s.df.Contents()), action.how, sel, lib)
    ensures out.updated == if Stopped(out.log) then None else Some(MissingReport(s.df.Contents()))
    ensures out.summary == if Stopped(out.log) then None else Some(Summarize(old(s.df).Contents()))
  {
    var df := s.df;
    var log: seq<Message> := [];
    if action != SelectMethod && sel != [] && pressed {
      match action {
        case DropRowsAction =>
          s.df := new Frame(DropNullRows(df.Contents(), sel));
          log := [DroppedRows(sel)];
        case DropColumnsAction =>
          s.df := new Frame(DropColumns(df.Contents(), sel));
          log := [DroppedColumns(sel)];
        case Fill(how) =>
          ghost var before := df.Contents();
          log := df.Impute(how, sel, lib);
          assert WellFormed(df.Contents()) by {
            ImputationOutcomes.ImputeLoopSound(before, how, sel, lib);
          }
      }
    }
    if Stopped(log) {
      out := RunOutcome(log, None, None);
    } else {
      out := RunOutcome(log, Some(MissingReport(s.df.Contents())), Some(Summarize(df.Contents())));
    }
  }
  /** After "Drop rows", the updated report shows no missing value in any
      selected column, and the list of columns with missing values computed
      from the new table would not name any of them. */
  lemma {:induction false} DropRowsClearSelection(t: Table, sel: seq<string>)
    requires WellFormed(t)
    ensures var r := DropNullRows(t, sel);
      && (forall e :: e in MissingReport(r) && e.name in sel ==> e.count == 0)
      && (forall n :: n in sel ==> n !in ColumnsWithMissing(r))
  {
    var r := DropNullRows(t, sel);
    var report := MissingReport(r);
    forall n | n in sel
      ensures n !in ColumnsWithMissing(r)
    {
      forall j | 0 <= j < |r.columns| && r.columns[j].name == n
        ensures !HasMissing(r.columns[j])
      {
      }
    }
  }

  /** After "Drop columns", no selected column is left in the table, so the
      list of columns with missing values computed from it would not name
      any of them. */
  lemma {:induction false} DropColumnsClearSelection(t: Table, sel: seq<string>)
    requires WellFormed(t) && AllPresent(t, sel)
    ensures var d := DropColumns(t, sel);
      && (forall n :: n in sel ==> n !in Names(d.columns))
      && (forall n :: n in sel ==> n !in ColumnsWithMissing(d))
  {
    var d := DropColumns(t, sel);
    forall n | n in sel
      ensures n !in Names(d.columns)
    {
      forall j | 0 <= j < |d.columns|
        ensures Names(d.columns)[j] != n
      {
        assert d.columns[j] in d.columns;
      }
    }
  }
}
